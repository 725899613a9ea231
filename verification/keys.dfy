/** The composite sale key: NFT contract id, delimiter, token id, joined as
    one string. The delimiter's value is a contract constant outside this
    model, so it is a parameter here. */
module Keys {
  import opened Types

  function Key(delimiter: string, contract: AccountId, token: TokenId): (k: string)
    ensures |k| == |contract| + |delimiter| + |token|
    ensures k[..|contract|] == contract && k[|contract| + |delimiter|..] == token
    ensures k[|contract|..|contract| + |delimiter|] == delimiter
  {
    contract + delimiter + token
  }

  /** `id` never contains the delimiter's first character. */
  predicate FreeOf(delimiter: string, id: AccountId)
  {
    |delimiter| > 0 && forall i :: 0 <= i < |id| ==> id[i] != delimiter[0]
  }

  /** `delimiter` occurs in `id` starting at position `i`. */
  predicate OccursAt(delimiter: string, id: AccountId, i: nat)
  {
    i + |delimiter| <= |id| && id[i..i + |delimiter|] == delimiter
  }

  /** When neither contract id holds the delimiter's first character, equal
      keys come from equal (contract, token) pairs. */
  lemma KeyInjective(delimiter: string, c1: AccountId, t1: TokenId, c2: AccountId, t2: TokenId)
    requires FreeOf(delimiter, c1) && FreeOf(delimiter, c2)
    requires Key(delimiter, c1, t1) == Key(delimiter, c2, t2)
    ensures c1 == c2 && t1 == t2
  {
    DelimiterPosition(delimiter, c1, t1);
    DelimiterPosition(delimiter, c2, t2);
    assert |c1| == |c2|;
  }

  /** In a key built from a contract id free of the delimiter's first
      character, that character first occurs right after the contract id. */
  lemma DelimiterPosition(delimiter: string, c: AccountId, t: TokenId)
    requires FreeOf(delimiter, c)
    ensures Key(delimiter, c, t)[|c|] == delimiter[0]
    ensures forall j :: 0 <= j < |c| ==> Key(delimiter, c, t)[j] != delimiter[0]
  {
    var k := Key(delimiter, c, t);
    forall j | 0 <= j < |c|
      ensures k[j] == c[j]
    {
      assert k[..|c|][j] == c[j];
    }
  }

  /** Conversely, a contract id that contains the delimiter shares its key
      with a different (contract, token) pair: the part before the
      occurrence, with the rest moved into the token. */
  lemma DelimiterInContractCollides(delimiter: string, c: AccountId, t: TokenId, i: nat)
    requires |delimiter| > 0 && OccursAt(delimiter, c, i)
    ensures c[..i] != c
    ensures Key(delimiter, c[..i], c[i + |delimiter|..] + delimiter + t) == Key(delimiter, c, t)
  {
    assert |c[..i]| < |c|;
    assert c == c[..i] + delimiter + c[i + |delimiter|..];
  }

  /** For a one-character delimiter, the sufficient condition of
      KeyInjective is exactly "the contract id does not contain the
      delimiter", so that condition is both necessary and sufficient. */
  lemma SingleCharDelimiter(delimiter: string, c: AccountId)
    requires |delimiter| == 1
    ensures FreeOf(delimiter, c) <==> forall i: nat :: !OccursAt(delimiter, c, i)
  {
    forall i: nat | OccursAt(delimiter, c, i)
      ensures c[i] == delimiter[0]
    {
      assert c[i..i + 1][0] == c[i];
    }
    if !FreeOf(delimiter, c) {
      var i :| 0 <= i < |c| && c[i] == delimiter[0];
      assert c[i..i + 1] == delimiter;
      assert OccursAt(delimiter, c, i);
    }
  }
}
