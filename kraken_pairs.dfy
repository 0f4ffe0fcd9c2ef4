/**
  Kraken pair-string parsing (`parseKrakenPair` and
  `getKrakenFromFromPairString`, exchanges/Kraken.ts).

  A Kraken pair such as "XXBTZUSD" is split by trying the known currency
  codes in list order: the first code that is a prefix of the pair, and whose
  removal leaves another known code, gives the split.
 */
module KrakenPairs {
  import opened Wrappers

  /** The known currency codes, in the source's order ("XBT" is listed twice). */
  const CurrencyCodes: seq<string> := [
    "XETH", "XXBT", "MATIC", "ZUSD", "ZEUR", "XBT", "USDC", "ETH", "XBT",
    "XXBTZ", "XDG", "USD", "QNT", "SOL", "AKT", "NEAR", "INJ"]

  datatype CurrencyPair = CurrencyPair(from: string, to: string)

  predicate StartsWith(s: string, prefix: string)
  {
    |prefix| <= |s| && s[..|prefix|] == prefix
  }

  /** `pattern` occurs in `s` at position `j`. */
  predicate OccursAt(s: string, pattern: string, j: nat)
  {
    j + |pattern| <= |s| && s[j..j + |pattern|] == pattern
  }

  /** The first position at or after `i` where `pattern` occurs in `s`, or
      `None` when it occurs nowhere from `i` on. */
  function IndexOf(s: string, pattern: string, i: nat): (r: Option<nat>)
    ensures r.Some? ==> i <= r.value && OccursAt(s, pattern, r.value)
    ensures r.Some? ==> forall j: nat | i <= j < r.value :: !OccursAt(s, pattern, j)
    ensures r.None? ==> forall j: nat | i <= j :: !OccursAt(s, pattern, j)
    decreases |s| - i
  {
    if i + |pattern| > |s| then None
    else if s[i..i + |pattern|] == pattern then Some(i)
    else
      assert !OccursAt(s, pattern, i);
      IndexOf(s, pattern, i + 1)
  }

  /** String replacement of the first occurrence only, as a string pattern does
      in JavaScript's `String.prototype.replace`: a prefix occurrence is the
      first, and without an occurrence the string is unchanged. */
  function Replace(s: string, pattern: string, replacement: string): (r: string)
    ensures StartsWith(s, pattern) ==> r == replacement + s[|pattern|..]
    ensures (forall j: nat :: !OccursAt(s, pattern, j)) ==> r == s
  {
    assert StartsWith(s, pattern) ==> OccursAt(s, pattern, 0);
    match IndexOf(s, pattern, 0)
    case None => s
    case Some(i) => s[..i] + replacement + s[i + |pattern|..]
  }

  /** The search over `codes` from index `i` onwards: the early-returning
      loop of the source. A split it returns puts two listed codes together
      into the pair. */
  function ParseFrom(codes: seq<string>, pair: string, i: nat): (r: Option<CurrencyPair>)
    ensures r.Some? ==> r.value.from + r.value.to == pair
    ensures r.Some? ==> r.value.from in codes && r.value.to in codes
    decreases |codes| - i
  {
    if i >= |codes| then None
    else
      var code := codes[i];
      if StartsWith(pair, code) && Replace(pair, code, "") in codes then
        assert pair == pair[..|code|] + pair[|code|..];
        Some(CurrencyPair(code, Replace(pair, code, "")))
      else ParseFrom(codes, pair, i + 1)
  }

  /** `parseKrakenPair`: a successful parse splits the pair into two listed
      codes. */
  function ParseKrakenPair(pair: string): (r: Option<CurrencyPair>)
    ensures r.Some? ==> r.value.from + r.value.to == pair
    ensures r.Some? ==> r.value.from in CurrencyCodes && r.value.to in CurrencyCodes
  {
    ParseFrom(CurrencyCodes, pair, 0)
  }

  /** The `from` code of a pair, or `None` when parsing fails or yields an
      empty (falsy) code. */
  function KrakenFromPairString(pair: string): (r: Option<string>)
    ensures r == if ParseKrakenPair(pair).Some? then Some(ParseKrakenPair(pair).value.from) else None
  {
    assert forall c | c in CurrencyCodes :: c != "";
    match ParseKrakenPair(pair)
    case None => None
    case Some(cp) => if cp.from == "" then None else Some(cp.from)
  }

  // ----- properties -----

  /** Code `k` of `codes` splits `pair` into itself and another listed code. */
  predicate Splits(codes: seq<string>, pair: string, k: int)
  {
    0 <= k < |codes| && StartsWith(pair, codes[k]) && pair[|codes[k]|..] in codes
  }

  /** The search returns the split of the first splitting code at or after
      `i`, and nothing exactly when no code from `i` on splits the pair. */
  lemma {:induction false} ParseFromFirst(codes: seq<string>, pair: string, i: nat)
    ensures ParseFrom(codes, pair, i).Some? ==> exists k :: (i <= k && Splits(codes, pair, k) &&
      (forall j | i <= j < k :: !Splits(codes, pair, j)) &&
      ParseFrom(codes, pair, i).value == CurrencyPair(codes[k], pair[|codes[k]|..]))
    ensures ParseFrom(codes, pair, i).None? <==> forall k | i <= k < |codes| :: !Splits(codes, pair, k)
    decreases |codes| - i
  {
    if i < |codes| {
      var code := codes[i];
      assert StartsWith(pair, code) ==> Replace(pair, code, "") == pair[|code|..];
      ParseFromFirst(codes, pair, i + 1);
      if !Splits(codes, pair, i) && ParseFrom(codes, pair, i).Some? {
        var k :| i + 1 <= k && Splits(codes, pair, k) &&
          (forall j | i + 1 <= j < k :: !Splits(codes, pair, j)) &&
          ParseFrom(codes, pair, i + 1).value == CurrencyPair(codes[k], pair[|codes[k]|..]);
        assert forall j | i <= j < k :: !Splits(codes, pair, j);
      }
    }
  }

  /** The parse picks the first code, in list order, that splits the pair,
      and fails exactly when no code does. */
  lemma ParseFirstMatch(pair: string)
    ensures ParseKrakenPair(pair).Some? ==> exists k :: (Splits(CurrencyCodes, pair, k) &&
      (forall j | 0 <= j < k :: !Splits(CurrencyCodes, pair, j)) &&
      ParseKrakenPair(pair).value == CurrencyPair(CurrencyCodes[k], pair[|CurrencyCodes[k]|..]))
    ensures ParseKrakenPair(pair).None? <==>
      forall k | 0 <= k < |CurrencyCodes| :: !Splits(CurrencyCodes, pair, k)
  {
    ParseFromFirst(CurrencyCodes, pair, 0);
  }

  /** "XXBTZUSD" parses as XXBT and ZUSD, not XXBTZ and USD, because XXBT comes
      first in the list. */
  lemma ParseExample()
    ensures ParseKrakenPair("XXBTZUSD") == Some(CurrencyPair("XXBT", "ZUSD"))
    ensures KrakenFromPairString("XXBTZUSD") == Some("XXBT")
  {
    var pair := "XXBTZUSD";
    assert pair[1] != CurrencyCodes[0][1];
    ParseFromSkip(CurrencyCodes, pair, 0);
    assert pair[..4] == CurrencyCodes[1] && pair[4..] == CurrencyCodes[3];
    ParseFromHit(CurrencyCodes, pair, 1);
  }

  /** A code that does not start the pair passes the search on. */
  lemma ParseFromSkip(codes: seq<string>, pair: string, i: nat)
    requires i < |codes| && !StartsWith(pair, codes[i])
    ensures ParseFrom(codes, pair, i) == ParseFrom(codes, pair, i + 1)
  {
  }

  /** A code that starts the pair and leaves a listed code ends the search. */
  lemma ParseFromHit(codes: seq<string>, pair: string, i: nat)
    requires i < |codes| && StartsWith(pair, codes[i]) && pair[|codes[i]|..] in codes
    ensures ParseFrom(codes, pair, i) == Some(CurrencyPair(codes[i], pair[|codes[i]|..]))
  {
    assert Replace(pair, codes[i], "") == pair[|codes[i]|..];
  }

  lemma CodesAtLeastThree()
    ensures forall c | c in CurrencyCodes :: |c| >= 3
  {
  }

  /** With codes of at least three letters, a pair shorter than six letters
      splits into no two codes. */
  lemma ShortPairSplitsNot(codes: seq<string>, pair: string)
    requires forall c | c in codes :: |c| >= 3
    requires |pair| < 6
    ensures forall k | 0 <= k < |codes| :: !Splits(codes, pair, k)
  {
    forall k | 0 <= k < |codes|
      ensures !Splits(codes, pair, k)
    {
      assert codes[k] in codes;
      if StartsWith(pair, codes[k]) {
        assert |pair[|codes[k]|..]| < 3;
      }
    }
  }

  /** Every listed code has at least three letters, so a pair shorter than six
      letters never parses; a bare code such as "XBT" is one, since removing
      it leaves "", which is not listed. */
  lemma ShortPairFails(pair: string)
    requires |pair| < 6
    ensures ParseKrakenPair(pair) == None
    ensures KrakenFromPairString(pair) == None
  {
    CodesAtLeastThree();
    ShortPairSplitsNot(CurrencyCodes, pair);
    ParseFirstMatch(pair);
  }

  lemma BareCodeFails()
    ensures ParseKrakenPair("XBT") == None
  {
    ShortPairFails("XBT");
  }
}
