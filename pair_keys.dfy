/**
  Pair keys of the exchange's catalog (`"btc_usd"`) and product ids of its
  ticker endpoint: splitting a key on `_`, resolving its first and last
  pieces to currencies, and forming the lower-cased `"<base>_<quote>"` id.
*/
module PairKeys {
  import opened Wrappers

  const Separator: char := '_'

  /**
    What the adapter consumes of the host application's `Currency` type,
    whose definition is not part of this model: `Currency.build(fromCode:)`,
    the `isCrypto` property and the `code` property.
  */
  datatype Currencies<!C> = Currencies(
    build: string -> Option<C>,
    isCrypto: C -> bool,
    code: C -> string)

  // ---------------------------------------------------------------------
  // Splitting on the separator, empty pieces dropped
  // ---------------------------------------------------------------------

  ghost predicate IsPiece(p: string) {
    p != [] && Separator !in p
  }

  /**
    Swift's `key.split(separator: "_")`: the maximal runs of characters other
    than the separator, left to right; empty runs are omitted.
  */
  function Split(s: string): (pieces: seq<string>)
    ensures forall i :: 0 <= i < |pieces| ==> IsPiece(pieces[i])
  {
    SplitFrom(s, [])
  }

  /** Splits `s`, where `run` holds the characters of the piece in progress. */
  function SplitFrom(s: string, run: string): (pieces: seq<string>)
    requires Separator !in run
    ensures forall i :: 0 <= i < |pieces| ==> IsPiece(pieces[i])
    decreases |s|
  {
    if s == [] then
      Flush(run)
    else if s[0] == Separator then
      Flush(run) + SplitFrom(s[1..], [])
    else
      SplitFrom(s[1..], run + [s[0]])
  }

  /** The piece in progress, if it is not empty. */
  function Flush(run: string): (pieces: seq<string>)
  {
    if run == [] then [] else [run]
  }

  /** Joins pieces with the separator between consecutive ones. */
  function Join(pieces: seq<string>): string
  {
    if |pieces| <= 1 then
      (if pieces == [] then [] else pieces[0])
    else
      pieces[0] + [Separator] + Join(pieces[1..])
  }

  /** A run without separators is carried into a single piece. */
  lemma {:induction false} SplitFromRun(s: string, run: string)
    requires Separator !in run && Separator !in s
    ensures SplitFrom(s, run) == Flush(run + s)
    decreases |s|
  {
    if s != [] {
      assert s[0] != Separator by { assert s[0] in s; }
      assert Separator !in s[1..] by {
        forall k | 0 <= k < |s[1..]| ensures s[1..][k] != Separator { assert s[1..][k] == s[k + 1]; }
      }
      SplitFromRun(s[1..], run + [s[0]]);
      assert run + [s[0]] + s[1..] == run + s;
    } else {
      assert run + s == run;
    }
  }

  /** A key without the separator is a single piece (or none, when empty). */
  lemma SplitNoSeparator(s: string)
    requires Separator !in s
    ensures Split(s) == Flush(s)
  {
    SplitFromRun(s, []);
    assert [] + s == s;
  }

  lemma {:induction false} SplitFromSeparator(a: string, run: string, b: string)
    requires Separator !in run
    ensures SplitFrom(a + [Separator] + b, run) == SplitFrom(a, run) + SplitFrom(b, [])
    decreases |a|
  {
    var s := a + [Separator] + b;
    if a == [] {
      assert s[0] == Separator && s[1..] == b;
    } else {
      assert s[0] == a[0] && s[1..] == a[1..] + [Separator] + b;
      if a[0] == Separator {
        SplitFromSeparator(a[1..], [], b);
      } else {
        SplitFromSeparator(a[1..], run + [a[0]], b);
      }
    }
  }

  /** Splitting distributes over a separator: the pieces on each side are kept, in order. */
  lemma SplitAtSeparator(a: string, b: string)
    ensures Split(a + [Separator] + b) == Split(a) + Split(b)
  {
    SplitFromSeparator(a, [], b);
  }

  /** Splitting undoes joining pieces that are non-empty and separator-free. */
  lemma {:induction false} SplitJoin(pieces: seq<string>)
    requires forall i :: 0 <= i < |pieces| ==> IsPiece(pieces[i])
    ensures Split(Join(pieces)) == pieces
    decreases |pieces|
  {
    if pieces == [] {
    } else if |pieces| == 1 {
      SplitNoSeparator(pieces[0]);
    } else {
      SplitAtSeparator(pieces[0], Join(pieces[1..]));
      SplitNoSeparator(pieces[0]);
      SplitJoin(pieces[1..]);
    }
  }

  // ---------------------------------------------------------------------
  // Resolving a pair key
  // ---------------------------------------------------------------------

  /**
    The currency pair a catalog key contributes, if any: the base code is the
    first piece and the quote code the last; the key is kept only when both
    codes build to a currency and the base currency is a cryptocurrency.
  */
  function ParsePair<C>(key: string, cur: Currencies<C>): (r: Option<(C, C)>)
    ensures r.Some? <==>
      var pieces := Split(key);
      && pieces != []
      && cur.build(pieces[0]).Some?
      && cur.isCrypto(cur.build(pieces[0]).value)
      && cur.build(pieces[|pieces| - 1]).Some?
    ensures r.Some? ==>
      var pieces := Split(key);
      && pieces != []
      && cur.build(pieces[0]) == Some(r.value.0)
      && cur.build(pieces[|pieces| - 1]) == Some(r.value.1)
  {
    var pieces := Split(key);
    if pieces == [] then None else PairOf(pieces[0], pieces[|pieces| - 1], cur)
  }

  /** The pair built from a base code and a quote code: both must build, and the base must be a cryptocurrency. */
  function PairOf<C>(baseCode: string, quoteCode: string, cur: Currencies<C>): Option<(C, C)>
  {
    match cur.build(baseCode)
    case None => None
    case Some(base) =>
      if !cur.isCrypto(base) then None
      else
        match cur.build(quoteCode)
        case None => None
        case Some(quote) => Some((base, quote))
  }

  /** A key made of separators only (or empty) contributes nothing. */
  lemma ParseSeparatorsOnly<C>(key: string, cur: Currencies<C>)
    requires forall i :: 0 <= i < |key| ==> key[i] == Separator
    ensures ParsePair(key, cur) == None
  {
    var pieces := Split(key);
    if pieces != [] {
      var p := pieces[0];
      assert IsPiece(p);
      assert p[0] != Separator by { assert p[0] in p; }
      FlattenedPieceCharacter(key, 0, 0);
    }
  }

  /** Every character of every piece is a character of the key. */
  lemma FlattenedPieceCharacter(key: string, i: nat, k: nat)
    requires i < |Split(key)| && k < |Split(key)[i]|
    ensures Split(key)[i][k] in key
  {
    SplitFromCharacters(key, [], i, k);
  }

  lemma {:induction false} SplitFromCharacters(s: string, run: string, i: nat, k: nat)
    requires Separator !in run
    requires i < |SplitFrom(s, run)| && k < |SplitFrom(s, run)[i]|
    ensures SplitFrom(s, run)[i][k] in run + s
    decreases |s|
  {
    if s == [] {
      assert SplitFrom(s, run)[i] == run;
    } else if s[0] == Separator {
      if run != [] && i == 0 {
        assert SplitFrom(s, run)[i] == run;
      } else {
        var j := if run == [] then i else i - 1;
        assert SplitFrom(s, run)[i] == SplitFrom(s[1..], [])[j];
        SplitFromCharacters(s[1..], [], j, k);
        assert s == [s[0]] + s[1..];
      }
    } else {
      SplitFromCharacters(s[1..], run + [s[0]], i, k);
      assert run + [s[0]] + s[1..] == run + s;
    }
  }

  /** A key without the separator uses the same code for base and quote. */
  lemma ParseSinglePiece<C>(key: string, cur: Currencies<C>)
    requires IsPiece(key)
    ensures ParsePair(key, cur) == PairOf(key, key, cur)
  {
    SplitNoSeparator(key);
  }

  /** `"<base>_<quote>"` resolves `base` and `quote`. */
  lemma ParseTwoPieces<C>(base: string, quote: string, cur: Currencies<C>)
    requires IsPiece(base) && IsPiece(quote)
    ensures ParsePair(base + [Separator] + quote, cur) == PairOf(base, quote, cur)
  {
    SplitAtSeparator(base, quote);
    SplitNoSeparator(base);
    SplitNoSeparator(quote);
  }

  /** In `"<base>_<middle>_<quote>"` whatever stands between the outer pieces is ignored. */
  lemma ParseIgnoresMiddle<C>(base: string, middle: string, quote: string, cur: Currencies<C>)
    requires IsPiece(base) && IsPiece(quote)
    ensures ParsePair(base + [Separator] + middle + [Separator] + quote, cur) == PairOf(base, quote, cur)
  {
    SplitAtSeparator(base + [Separator] + middle, quote);
    SplitAtSeparator(base, middle);
    SplitNoSeparator(base);
    SplitNoSeparator(quote);
  }

  // ---------------------------------------------------------------------
  // Product ids
  // ---------------------------------------------------------------------

  /** `Character.lowercased()` on ASCII letters; every other character is kept. */
  function LowerChar(c: char): char
  {
    if 'A' <= c <= 'Z' then (c as int + 32) as char else c
  }

  /** `String.lowercased()`, character by character. */
  function Lower(s: string): (r: string)
    ensures |r| == |s|
    ensures forall i :: 0 <= i < |s| ==> r[i] == LowerChar(s[i])
  {
    if s == [] then [] else [LowerChar(s[0])] + Lower(s[1..])
  }

  lemma LowerAppend(a: string, b: string)
    ensures Lower(a + b) == Lower(a) + Lower(b)
  {
  }

  /** Lower-cased text has no upper-case ASCII letter, and lower-casing it again changes nothing. */
  lemma LowerIdempotent(s: string)
    ensures forall i :: 0 <= i < |Lower(s)| ==> !('A' <= Lower(s)[i] <= 'Z')
    ensures Lower(Lower(s)) == Lower(s)
  {
    forall i | 0 <= i < |s|
      ensures !('A' <= Lower(s)[i] <= 'Z') && LowerChar(Lower(s)[i]) == Lower(s)[i]
    {
      assert Lower(s)[i] == LowerChar(s[i]);
    }
  }

  /**
    The ticker product id of a pair: `"<base code>_<quote code>".lowercased()`.
    It is the two lower-cased codes around the separator, has no upper-case
    ASCII letter, and lower-casing it again changes nothing.
  */
  function ProductId(baseCode: string, quoteCode: string): (id: string)
    ensures id == Lower(baseCode) + [Separator] + Lower(quoteCode)
    ensures forall i :: 0 <= i < |id| ==> !('A' <= id[i] <= 'Z')
    ensures Lower(id) == id
  {
    var joined := baseCode + [Separator] + quoteCode;
    LowerAppend(baseCode + [Separator], quoteCode);
    LowerAppend(baseCode, [Separator]);
    assert Lower([Separator]) == [Separator];
    LowerIdempotent(joined);
    Lower(joined)
  }

  /** A product id of two separator-free codes is itself a pair key of those codes, lower-cased. */
  lemma ProductIdSplits(baseCode: string, quoteCode: string)
    requires IsPiece(baseCode) && IsPiece(quoteCode)
    ensures Split(ProductId(baseCode, quoteCode)) == [Lower(baseCode), Lower(quoteCode)]
  {
    LowerKeepsPiece(baseCode);
    LowerKeepsPiece(quoteCode);
    SplitAtSeparator(Lower(baseCode), Lower(quoteCode));
    SplitNoSeparator(Lower(baseCode));
    SplitNoSeparator(Lower(quoteCode));
  }

  lemma LowerKeepsPiece(s: string)
    requires IsPiece(s)
    ensures IsPiece(Lower(s))
  {
  }
}
