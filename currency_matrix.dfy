/**
  The currency matrix the adapter builds from the catalog's pair keys: each
  accepted key appends its quote currency to the list of its base currency,
  creating that list first when the base is new.
*/
module CurrencyMatrices {
  import opened Wrappers
  import opened PairKeys

  /** `CurrencyMatrix`: a base currency mapped to the quote currencies listed against it. */
  type CurrencyMatrix<C> = map<C, seq<C>>

  // ---------------------------------------------------------------------
  // Reference definition of the matrix
  // ---------------------------------------------------------------------

  /** Each key's contribution: its pair when the key is accepted, `None` when it is skipped. */
  function Parsed<C>(keys: seq<string>, cur: Currencies<C>): seq<Option<(C, C)>>
  {
    seq(|keys|, i requires 0 <= i < |keys| => ParsePair(keys[i], cur))
  }

  /** The values present in `options`, in order. */
  function Present<T>(options: seq<Option<T>>): seq<T>
  {
    if options == [] then []
    else
      Present(options[..|options| - 1]) +
      (match options[|options| - 1] case None => [] case Some(x) => [x])
  }

  /** The pairs of the accepted keys, one per accepted key, in key order. */
  function AcceptedPairs<C>(keys: seq<string>, cur: Currencies<C>): seq<(C, C)>
  {
    Present(Parsed(keys, cur))
  }

  /** The positions of the accepted keys. */
  ghost function AcceptedKeys<C>(keys: seq<string>, cur: Currencies<C>): set<int>
  {
    set i | 0 <= i < |keys| && ParsePair(keys[i], cur).Some?
  }

  /** The positions of the keys that resolve to `pair`. */
  ghost function KeysGiving<C>(keys: seq<string>, cur: Currencies<C>, pair: (C, C)): set<int>
  {
    set i | 0 <= i < |keys| && ParsePair(keys[i], cur) == Some(pair)
  }

  /** The quotes listed against `base` in `pairs`, in order, duplicates kept. */
  function QuotesFor<C(==)>(pairs: seq<(C, C)>, base: C): seq<C>
  {
    if pairs == [] then []
    else
      var last := pairs[|pairs| - 1];
      QuotesFor(pairs[..|pairs| - 1], base) + (if last.0 == base then [last.1] else [])
  }

  function BaseSet<C>(pairs: seq<(C, C)>): set<C>
  {
    set i | 0 <= i < |pairs| :: pairs[i].0
  }

  /**
    The matrix of a sequence of accepted pairs: each pair, in order, appended
    to the list of its base. Its entries are characterised by `LookupMatrixOf`.
  */
  function MatrixOf<C(==)>(pairs: seq<(C, C)>): CurrencyMatrix<C>
  {
    if pairs == [] then map[]
    else
      var last := pairs[|pairs| - 1];
      Insert(MatrixOf(pairs[..|pairs| - 1]), last.0, last.1)
  }

  /** `matrix[base] ?? []`. */
  function Lookup<C>(matrix: CurrencyMatrix<C>, base: C): seq<C>
  {
    if base in matrix then matrix[base] else []
  }

  /** One step of the loop in `start()`: create the list of `base` if absent, then append. */
  function Insert<C>(matrix: CurrencyMatrix<C>, base: C, quote: C): CurrencyMatrix<C>
  {
    matrix[base := Lookup(matrix, base) + [quote]]
  }

  ghost predicate Distinct<T>(s: seq<T>)
  {
    forall i, j :: 0 <= i < j < |s| ==> s[i] != s[j]
  }

  /** The bases of `pairs`, each once, in order of first appearance. */
  function Bases<C(==)>(pairs: seq<(C, C)>): (bases: seq<C>)
    ensures Distinct(bases)
  {
    if pairs == [] then []
    else
      var prefix := Bases(pairs[..|pairs| - 1]);
      var b := pairs[|pairs| - 1].0;
      prefix + (if b in prefix then [] else [b])
  }

  /** The total length of the lists of `bases` in `matrix`. */
  function TotalLength<C>(matrix: CurrencyMatrix<C>, bases: seq<C>): nat
  {
    if bases == [] then 0
    else TotalLength(matrix, bases[..|bases| - 1]) + |Lookup(matrix, bases[|bases| - 1])|
  }

  // ---------------------------------------------------------------------
  // The loop of `start()`
  // ---------------------------------------------------------------------

  /**
    The catalog parse of `start()`: the pair keys in the order the pairs
    dictionary yields them, folded into a fresh matrix.
  */
  method BuildCurrencyMatrix<C(==)>(keys: seq<string>, cur: Currencies<C>) returns (matrix: CurrencyMatrix<C>)
    ensures matrix == MatrixOf(AcceptedPairs(keys, cur))
    ensures forall b :: b in matrix ==> cur.isCrypto(b) && matrix[b] != []
  {
    ghost var parsed := Parsed(keys, cur);
    matrix := map[];
    for i := 0 to |keys|
      invariant matrix == MatrixOf(Present(parsed[..i]))
    {
      matrix := AddKey(matrix, keys[i], cur);
      MatrixPrefixStep(parsed, i);
    }
    assert parsed[..|keys|] == parsed;
    MatrixSound(keys, cur);
    MatrixNonEmpty(keys, cur);
  }

  /** One iteration of the catalog loop: a key that parses to a pair files
      its quote under its base, creating the base's entry first if it has
      none; any other key leaves the matrix as it was. */
  method AddKey<C(==)>(matrix: CurrencyMatrix<C>, key: string, cur: Currencies<C>) returns (updated: CurrencyMatrix<C>)
    ensures updated == match ParsePair(key, cur)
      case None => matrix
      case Some(pair) => Insert(matrix, pair.0, pair.1)
  {
    updated := matrix;
    var pieces := Split(key);
    if pieces != [] {
      var base := cur.build(pieces[0]);
      if base.Some? && cur.isCrypto(base.value) {
        var quote := cur.build(pieces[|pieces| - 1]);
        if quote.Some? {
          if base.value !in updated {
            updated := updated[base.value := []];
          }
          updated := updated[base.value := updated[base.value] + [quote.value]];
        }
      }
    }
  }

  // ---------------------------------------------------------------------
  // Lemmas
  // ---------------------------------------------------------------------

  lemma PresentSnoc<T>(options: seq<Option<T>>, o: Option<T>)
    ensures Present(options + [o]) ==
      Present(options) + (match o case None => [] case Some(x) => [x])
  {
    var s := options + [o];
    assert s[..|s| - 1] == options;
  }

  /**
    The effect of one catalog key on the matrix: an accepted key appends its
    quote to the list of its base (creating the list when the base is new);
    a skipped key leaves the matrix unchanged.
  */
  lemma MatrixPrefixStep<C>(parsed: seq<Option<(C, C)>>, i: nat)
    requires i < |parsed|
    ensures MatrixOf(Present(parsed[..i + 1])) ==
      match parsed[i]
      case None => MatrixOf(Present(parsed[..i]))
      case Some(pair) => Insert(MatrixOf(Present(parsed[..i])), pair.0, pair.1)
  {
    assert parsed[..i + 1] == parsed[..i] + [parsed[i]];
    PresentSnoc(parsed[..i], parsed[i]);
    match parsed[i]
    case None =>
      assert Present(parsed[..i]) + [] == Present(parsed[..i]);
    case Some(pair) =>
      var s := Present(parsed[..i]) + [pair];
      assert s[..|s| - 1] == Present(parsed[..i]);
  }

  /** Every present value comes from some position, and every position's value is present. */
  lemma {:induction false} PresentFrom<T>(options: seq<Option<T>>)
    ensures forall j :: 0 <= j < |Present(options)| ==>
      exists i :: 0 <= i < |options| && options[i] == Some(Present(options)[j])
    ensures forall i :: 0 <= i < |options| && options[i].Some? ==> options[i].value in Present(options)
    decreases |options|
  {
    if options != [] {
      var prefix := options[..|options| - 1];
      var o := options[|options| - 1];
      assert options == prefix + [o];
      PresentFrom(prefix);
      PresentSnoc(prefix, o);
      var present := Present(options);
      forall j | 0 <= j < |present|
        ensures exists i :: 0 <= i < |options| && options[i] == Some(present[j])
      {
        if j < |Present(prefix)| {
          var i :| 0 <= i < |prefix| && prefix[i] == Some(Present(prefix)[j]);
          assert options[i] == prefix[i];
        } else {
          assert options[|options| - 1] == Some(present[j]);
        }
      }
      assert forall j :: 0 <= j < |Present(options)| ==>
        exists i :: 0 <= i < |options| && options[i] == Some(Present(options)[j]);
      forall i | 0 <= i < |options| && options[i].Some?
        ensures options[i].value in present
      {
        if i < |prefix| {
          assert options[i] == prefix[i];
        }
      }
    } else {
      assert Present(options) == [];
    }
  }

  /** Every accepted pair comes from some key, and every accepted key gives its pair. */
  lemma AcceptedPairsFromKeys<C>(keys: seq<string>, cur: Currencies<C>)
    ensures forall j :: 0 <= j < |AcceptedPairs(keys, cur)| ==>
      exists i :: 0 <= i < |keys| && ParsePair(keys[i], cur) == Some(AcceptedPairs(keys, cur)[j])
    ensures forall i :: 0 <= i < |keys| && ParsePair(keys[i], cur).Some? ==>
      ParsePair(keys[i], cur).value in AcceptedPairs(keys, cur)
  {
    var parsed := Parsed(keys, cur);
    PresentFrom(parsed);
    forall j | 0 <= j < |AcceptedPairs(keys, cur)|
      ensures exists i :: 0 <= i < |keys| && ParsePair(keys[i], cur) == Some(AcceptedPairs(keys, cur)[j])
    {
      var i :| 0 <= i < |parsed| && parsed[i] == Some(Present(parsed)[j]);
      assert 0 <= i < |keys| && ParsePair(keys[i], cur) == Some(AcceptedPairs(keys, cur)[j]);
    }
    assert forall j :: 0 <= j < |AcceptedPairs(keys, cur)| ==>
      exists i :: 0 <= i < |keys| && ParsePair(keys[i], cur) == Some(AcceptedPairs(keys, cur)[j]);
    forall i | 0 <= i < |keys| && ParsePair(keys[i], cur).Some?
      ensures ParsePair(keys[i], cur).value in AcceptedPairs(keys, cur)
    {
      assert parsed[i] == ParsePair(keys[i], cur);
    }
  }

  lemma BaseSetSnoc<C>(pairs: seq<(C, C)>, x: (C, C))
    ensures BaseSet(pairs + [x]) == BaseSet(pairs) + {x.0}
  {
    var s := pairs + [x];
    assert forall i :: 0 <= i < |pairs| ==> s[i] == pairs[i];
    assert s[|pairs|] == x;
  }

  lemma {:induction false} QuotesForEmpty<C>(pairs: seq<(C, C)>, base: C)
    ensures QuotesFor(pairs, base) == [] <==> base !in BaseSet(pairs)
    decreases |pairs|
  {
    if pairs != [] {
      var prefix := pairs[..|pairs| - 1];
      QuotesForEmpty(prefix, base);
      BaseSetSnoc(prefix, pairs[|pairs| - 1]);
      assert prefix + [pairs[|pairs| - 1]] == pairs;
    }
  }

  /**
    The matrix lists exactly the bases of the pairs, and looking a base up
    gives exactly the quotes paired with it, in order.
  */
  lemma {:induction false} LookupMatrixOf<C>(pairs: seq<(C, C)>, base: C)
    ensures base in MatrixOf(pairs) <==> base in BaseSet(pairs)
    ensures Lookup(MatrixOf(pairs), base) == QuotesFor(pairs, base)
    decreases |pairs|
  {
    if pairs != [] {
      var prefix := pairs[..|pairs| - 1];
      LookupMatrixOf(prefix, base);
      BaseSetSnoc(prefix, pairs[|pairs| - 1]);
      assert prefix + [pairs[|pairs| - 1]] == pairs;
    }
  }

  /** The entries of the matrix of `pairs`, in terms of `pairs` alone. */
  lemma MatrixEntries<C>(pairs: seq<(C, C)>)
    ensures forall b :: b in MatrixOf(pairs) <==> b in BaseSet(pairs)
    ensures forall b, q :: b in MatrixOf(pairs) ==> (q in MatrixOf(pairs)[b] <==> (b, q) in pairs)
    ensures forall b :: b in MatrixOf(pairs) ==> MatrixOf(pairs)[b] != []
  {
    forall b
      ensures b in MatrixOf(pairs) <==> b in BaseSet(pairs)
      ensures b in MatrixOf(pairs) ==> MatrixOf(pairs)[b] == QuotesFor(pairs, b) != []
    {
      LookupMatrixOf(pairs, b);
      QuotesForEmpty(pairs, b);
    }
    forall b, q | b in MatrixOf(pairs)
      ensures q in MatrixOf(pairs)[b] <==> (b, q) in pairs
    {
      QuotesForMember(pairs, b, q);
    }
  }

  /** Every accepted pair has a cryptocurrency as its base. */
  lemma AcceptedBasesAreCrypto<C>(keys: seq<string>, cur: Currencies<C>)
    ensures forall j :: 0 <= j < |AcceptedPairs(keys, cur)| ==> cur.isCrypto(AcceptedPairs(keys, cur)[j].0)
  {
    AcceptedPairsFromKeys(keys, cur);
    forall j | 0 <= j < |AcceptedPairs(keys, cur)|
      ensures cur.isCrypto(AcceptedPairs(keys, cur)[j].0)
    {
      var i :| 0 <= i < |keys| && ParsePair(keys[i], cur) == Some(AcceptedPairs(keys, cur)[j]);
    }
  }

  lemma MatrixBaseIsCrypto<C>(keys: seq<string>, cur: Currencies<C>, base: C)
    requires base in MatrixOf(AcceptedPairs(keys, cur))
    ensures cur.isCrypto(base)
  {
    var pairs := AcceptedPairs(keys, cur);
    MatrixEntries(pairs);
    var j :| 0 <= j < |pairs| && pairs[j].0 == base;
    AcceptedBasesAreCrypto(keys, cur);
  }

  lemma MatrixQuoteFromKey<C>(keys: seq<string>, cur: Currencies<C>, base: C, quote: C)
    requires base in MatrixOf(AcceptedPairs(keys, cur))
    requires quote in MatrixOf(AcceptedPairs(keys, cur))[base]
    ensures exists i :: 0 <= i < |keys| && ParsePair(keys[i], cur) == Some((base, quote))
  {
    var pairs := AcceptedPairs(keys, cur);
    MatrixEntries(pairs);
    var j :| 0 <= j < |pairs| && pairs[j] == (base, quote);
    AcceptedPairsFromKeys(keys, cur);
  }

  /**
    Soundness: every base of the matrix is a cryptocurrency, and every quote
    listed against a base comes from an accepted key whose base built to it.
  */
  lemma MatrixSound<C>(keys: seq<string>, cur: Currencies<C>)
    ensures var matrix := MatrixOf(AcceptedPairs(keys, cur));
      forall b :: b in matrix ==> cur.isCrypto(b)
    ensures var matrix := MatrixOf(AcceptedPairs(keys, cur));
      forall b, q :: b in matrix && q in matrix[b] ==>
        exists i :: 0 <= i < |keys| && ParsePair(keys[i], cur) == Some((b, q))
  {
    var matrix := MatrixOf(AcceptedPairs(keys, cur));
    forall b | b in matrix
      ensures cur.isCrypto(b)
    {
      MatrixBaseIsCrypto(keys, cur, b);
    }
    forall b, q | b in matrix && q in matrix[b]
      ensures exists i :: 0 <= i < |keys| && ParsePair(keys[i], cur) == Some((b, q))
    {
      MatrixQuoteFromKey(keys, cur, b, q);
    }
  }

  lemma {:induction false} QuotesForMember<C>(pairs: seq<(C, C)>, base: C, quote: C)
    ensures quote in QuotesFor(pairs, base) <==> (base, quote) in pairs
    decreases |pairs|
  {
    if pairs != [] {
      var prefix := pairs[..|pairs| - 1];
      QuotesForMember(prefix, base, quote);
      assert pairs == prefix + [pairs[|pairs| - 1]];
    }
  }

  /** Completeness: every accepted key's quote is listed against its base. */
  lemma MatrixComplete<C>(keys: seq<string>, cur: Currencies<C>)
    ensures var matrix := MatrixOf(AcceptedPairs(keys, cur));
      forall i :: 0 <= i < |keys| && ParsePair(keys[i], cur).Some? ==>
        var pair := ParsePair(keys[i], cur).value;
        pair.0 in matrix && pair.1 in matrix[pair.0]
  {
    var pairs := AcceptedPairs(keys, cur);
    MatrixEntries(pairs);
    AcceptedPairsFromKeys(keys, cur);
    forall i | 0 <= i < |keys| && ParsePair(keys[i], cur).Some?
      ensures var pair := ParsePair(keys[i], cur).value;
        pair.0 in MatrixOf(pairs) && pair.1 in MatrixOf(pairs)[pair.0]
    {
      var pair := ParsePair(keys[i], cur).value;
      var j :| 0 <= j < |pairs| && pairs[j] == pair;
      assert pair.0 in BaseSet(pairs);
    }
  }

  /** Every list in the matrix is non-empty: a base is only ever created just before a quote is appended. */
  lemma MatrixNonEmpty<C>(keys: seq<string>, cur: Currencies<C>)
    ensures var matrix := MatrixOf(AcceptedPairs(keys, cur));
      forall b :: b in matrix ==> matrix[b] != []
  {
    MatrixEntries(AcceptedPairs(keys, cur));
  }

  lemma {:induction false} QuotesForCount<C>(pairs: seq<(C, C)>, base: C, quote: C)
    ensures multiset(QuotesFor(pairs, base))[quote] == multiset(pairs)[(base, quote)]
    decreases |pairs|
  {
    if pairs != [] {
      var prefix := pairs[..|pairs| - 1];
      QuotesForCount(prefix, base, quote);
      assert pairs == prefix + [pairs[|pairs| - 1]];
    }
  }

  /** The positions of `options` holding a value. */
  ghost function Filled<T>(options: seq<Option<T>>): set<int>
  {
    set i | 0 <= i < |options| && options[i].Some?
  }

  /** The positions of `options` holding `x`. */
  ghost function Holding<T>(options: seq<Option<T>>, x: T): set<int>
  {
    set i | 0 <= i < |options| && options[i] == Some(x)
  }

  /** `Present` yields one value per filled position. */
  lemma {:induction false} PresentLength<T>(options: seq<Option<T>>)
    ensures |Present(options)| == |Filled(options)|
    decreases |options|
  {
    if options == [] {
      assert Filled(options) == {};
    } else {
      var n := |options| - 1;
      var init := options[..n];
      PresentLength(init);
      assert Filled(options) == Filled(init) + (if options[n].Some? then {n} else {}) by {
        forall i | i in Filled(options) ensures i in Filled(init) || i == n {
          if i < n { assert init[i] == options[i]; }
        }
        forall i | i in Filled(init) ensures i in Filled(options) {
          assert init[i] == options[i];
        }
      }
      assert n !in Filled(init);
    }
  }

  /** A value occurs in `Present(options)` once per position holding it. */
  lemma {:induction false} PresentMultiplicity<T>(options: seq<Option<T>>, x: T)
    ensures multiset(Present(options))[x] == |Holding(options, x)|
    decreases |options|
  {
    if options == [] {
      assert Holding(options, x) == {};
    } else {
      var n := |options| - 1;
      var init := options[..n];
      var last: seq<T> := match options[n] case None => [] case Some(y) => [y];
      assert Present(options) == Present(init) + last;
      assert multiset(Present(options)) == multiset(Present(init)) + multiset(last);
      assert multiset(last)[x] == if options[n] == Some(x) then 1 else 0;
      PresentMultiplicity(init, x);
      HoldingSnoc(options, x);
    }
  }

  /** The positions holding `x`: those before the last position, and the last one if it does. */
  lemma HoldingSnoc<T>(options: seq<Option<T>>, x: T)
    requires options != []
    ensures var n := |options| - 1;
      && Holding(options, x) == Holding(options[..n], x) + (if options[n] == Some(x) then {n} else {})
      && n !in Holding(options[..n], x)
  {
    var n := |options| - 1;
    var init := options[..n];
    forall i | i in Holding(options, x) ensures i in Holding(init, x) || i == n {
      if i < n { assert init[i] == options[i]; }
    }
    forall i | i in Holding(init, x) ensures i in Holding(options, x) {
      assert init[i] == options[i];
    }
  }

  /** There is one accepted pair per accepted key. */
  lemma AcceptedPairsCount<C>(keys: seq<string>, cur: Currencies<C>)
    ensures |AcceptedPairs(keys, cur)| == |AcceptedKeys(keys, cur)|
  {
    PresentLength(Parsed(keys, cur));
    assert Filled(Parsed(keys, cur)) == AcceptedKeys(keys, cur);
  }

  /** A pair is accepted once per key that resolves to it. */
  lemma AcceptedPairMultiplicity<C>(keys: seq<string>, cur: Currencies<C>, pair: (C, C))
    ensures multiset(AcceptedPairs(keys, cur))[pair] == |KeysGiving(keys, cur, pair)|
  {
    PresentMultiplicity(Parsed(keys, cur), pair);
    assert Holding(Parsed(keys, cur), pair) == KeysGiving(keys, cur, pair);
  }

  /**
    Duplicates are kept: a quote occurs in the list of a base exactly as often
    as that (base, quote) pair is accepted.
  */
  lemma MatrixKeepsDuplicates<C>(keys: seq<string>, cur: Currencies<C>, base: C, quote: C)
    ensures multiset(Lookup(MatrixOf(AcceptedPairs(keys, cur)), base))[quote] ==
            multiset(AcceptedPairs(keys, cur))[(base, quote)]
    ensures multiset(Lookup(MatrixOf(AcceptedPairs(keys, cur)), base))[quote] ==
            |KeysGiving(keys, cur, (base, quote))|
  {
    LookupMatrixOf(AcceptedPairs(keys, cur), base);
    QuotesForCount(AcceptedPairs(keys, cur), base, quote);
    AcceptedPairMultiplicity(keys, cur, (base, quote));
  }

  lemma {:induction false} PresentAppend<T>(options1: seq<Option<T>>, options2: seq<Option<T>>)
    ensures Present(options1 + options2) == Present(options1) + Present(options2)
    decreases |options2|
  {
    if options2 == [] {
      assert options1 + options2 == options1;
    } else {
      var rest := options2[..|options2| - 1];
      var last := options2[|options2| - 1];
      assert options2 == rest + [last];
      assert options1 + options2 == (options1 + rest) + [last];
      PresentAppend(options1, rest);
      PresentSnoc(options1 + rest, last);
      PresentSnoc(rest, last);
    }
  }

  lemma AcceptedPairsAppend<C>(keys1: seq<string>, keys2: seq<string>, cur: Currencies<C>)
    ensures AcceptedPairs(keys1 + keys2, cur) == AcceptedPairs(keys1, cur) + AcceptedPairs(keys2, cur)
  {
    assert Parsed(keys1 + keys2, cur) == Parsed(keys1, cur) + Parsed(keys2, cur);
    PresentAppend(Parsed(keys1, cur), Parsed(keys2, cur));
  }

  lemma {:induction false} QuotesForAppend<C>(pairs1: seq<(C, C)>, pairs2: seq<(C, C)>, base: C)
    ensures QuotesFor(pairs1 + pairs2, base) == QuotesFor(pairs1, base) + QuotesFor(pairs2, base)
    decreases |pairs2|
  {
    if pairs2 != [] {
      var pairs := pairs1 + pairs2;
      assert pairs[..|pairs| - 1] == pairs1 + pairs2[..|pairs2| - 1];
      QuotesForAppend(pairs1, pairs2[..|pairs2| - 1], base);
    } else {
      assert pairs1 + pairs2 == pairs1;
    }
  }

  /**
    Order: within one base, the quotes of earlier keys come before the quotes
    of later keys.
  */
  lemma MatrixOrder<C>(keys1: seq<string>, keys2: seq<string>, cur: Currencies<C>, base: C)
    ensures Lookup(MatrixOf(AcceptedPairs(keys1 + keys2, cur)), base) ==
            Lookup(MatrixOf(AcceptedPairs(keys1, cur)), base) + Lookup(MatrixOf(AcceptedPairs(keys2, cur)), base)
  {
    AcceptedPairsAppend(keys1, keys2, cur);
    QuotesForAppend(AcceptedPairs(keys1, cur), AcceptedPairs(keys2, cur), base);
    LookupMatrixOf(AcceptedPairs(keys1 + keys2, cur), base);
    LookupMatrixOf(AcceptedPairs(keys1, cur), base);
    LookupMatrixOf(AcceptedPairs(keys2, cur), base);
  }

  /** Total length of the quote lists of `bases` after one more pair. */
  lemma {:induction false} TotalLengthSnoc<C>(pairs: seq<(C, C)>, x: (C, C), bases: seq<C>)
    requires Distinct(bases)
    ensures TotalLength(MatrixOf(pairs + [x]), bases) ==
            TotalLength(MatrixOf(pairs), bases) + (if x.0 in bases then 1 else 0)
    decreases |bases|
  {
    if bases != [] {
      var prefix := bases[..|bases| - 1];
      var c := bases[|bases| - 1];
      assert bases == prefix + [c];
      assert Distinct(prefix);
      assert c !in prefix;
      TotalLengthSnoc(pairs, x, prefix);
      var s := pairs + [x];
      assert s[..|s| - 1] == pairs;
      LookupMatrixOf(s, c);
      LookupMatrixOf(pairs, c);
    }
  }

  lemma TotalLengthAppendOne<C>(matrix: CurrencyMatrix<C>, bases: seq<C>, base: C)
    ensures TotalLength(matrix, bases + [base]) == TotalLength(matrix, bases) + |Lookup(matrix, base)|
  {
    assert (bases + [base])[..|bases|] == bases;
  }

  /** `Bases` lists exactly the bases of the pairs. */
  lemma {:induction false} BasesCover<C>(pairs: seq<(C, C)>)
    ensures forall b :: b in Bases(pairs) <==> b in BaseSet(pairs)
    decreases |pairs|
  {
    if pairs != [] {
      var prefix := pairs[..|pairs| - 1];
      BasesCover(prefix);
      BaseSetSnoc(prefix, pairs[|pairs| - 1]);
      assert prefix + [pairs[|pairs| - 1]] == pairs;
    }
  }

  lemma {:induction false} TotalLengthOfBases<C>(pairs: seq<(C, C)>)
    ensures TotalLength(MatrixOf(pairs), Bases(pairs)) == |pairs|
    decreases |pairs|
  {
    if pairs != [] {
      var prefix := pairs[..|pairs| - 1];
      var x := pairs[|pairs| - 1];
      assert pairs == prefix + [x];
      var bs := Bases(prefix);
      var matrix := MatrixOf(pairs);
      TotalLengthOfBases(prefix);
      TotalLengthSnoc(prefix, x, bs);
      assert TotalLength(matrix, bs) == |prefix| + (if x.0 in bs then 1 else 0);
      if x.0 !in bs {
        assert Bases(pairs) == bs + [x.0];
        TotalLengthAppendOne(matrix, bs, x.0);
        BasesCover(prefix);
        QuotesForEmpty(prefix, x.0);
        assert QuotesFor(pairs, x.0) == QuotesFor(prefix, x.0) + [x.1];
        LookupMatrixOf(pairs, x.0);
      } else {
        assert Bases(pairs) == bs;
      }
    }
  }

  /**
    Counting: the bases of the matrix, each taken once, carry lists whose
    lengths add up to the number of accepted keys.
  */
  lemma MatrixTotal<C>(keys: seq<string>, cur: Currencies<C>)
    ensures var pairs := AcceptedPairs(keys, cur);
      var matrix := MatrixOf(pairs);
      && Distinct(Bases(pairs))
      && (forall b :: b in Bases(pairs) <==> b in matrix)
      && TotalLength(matrix, Bases(pairs)) == |pairs|
      && TotalLength(matrix, Bases(pairs)) == |AcceptedKeys(keys, cur)|
  {
    AcceptedPairsCount(keys, cur);
    TotalLengthOfBases(AcceptedPairs(keys, cur));
    BasesCover(AcceptedPairs(keys, cur));
    MatrixEntries(AcceptedPairs(keys, cur));
  }

  /**
    A catalog of `"<crypto>_<fiat>"` and `"<fiat>_<other>"` (say `"BTC_USD"`
    and `"USD_EUR"`), where only the first base is a cryptocurrency, lists the
    fiat currency against the cryptocurrency and nothing else.
  */
  lemma CatalogExample<C>(cur: Currencies<C>, cryptoCode: string, fiatCode: string, otherCode: string,
                          crypto: C, fiat: C, other: C)
    requires IsPiece(cryptoCode) && IsPiece(fiatCode) && IsPiece(otherCode)
    requires cur.build(cryptoCode) == Some(crypto) && cur.isCrypto(crypto)
    requires cur.build(fiatCode) == Some(fiat) && !cur.isCrypto(fiat)
    requires cur.build(otherCode) == Some(other)
    ensures MatrixOf(AcceptedPairs([cryptoCode + [Separator] + fiatCode, fiatCode + [Separator] + otherCode], cur))
      == map[crypto := [fiat]]
  {
    var keys := [cryptoCode + [Separator] + fiatCode, fiatCode + [Separator] + otherCode];
    ParseTwoPieces(cryptoCode, fiatCode, cur);
    ParseTwoPieces(fiatCode, otherCode, cur);
    var parsed := [Some((crypto, fiat)), None];
    assert Parsed(keys, cur) == parsed;
    PresentSnoc([], Some((crypto, fiat)));
    assert [] + [Some((crypto, fiat))] == [Some((crypto, fiat))];
    PresentSnoc([Some((crypto, fiat))], None);
    assert [Some((crypto, fiat))] + [None] == parsed;
    var pairs := [(crypto, fiat)];
    assert AcceptedPairs(keys, cur) == pairs;
    assert pairs[..0] == [];
    assert MatrixOf(pairs) == Insert(map[], crypto, fiat);
    assert Lookup(map[], crypto) == [] && [] + [fiat] == [fiat];
    assert Insert(map[], crypto, fiat) == map[crypto := [fiat]];
  }
}
