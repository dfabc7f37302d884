/** Iterator building blocks in the style of `itertools`, over finite sequences.
    A generator becomes the sequence of everything it yields; a tuple of items
    all of one type becomes a sequence. */
module Iterations {
  import opened Results

  // ----- accumulate -----

  /** Running totals: one per input, the first being the first input and each
      later one `f(previous total, element)`. An empty input yields nothing. */
  method Accumulate<T>(s: seq<T>, f: (T, T) -> T) returns (r: seq<T>)
    ensures |r| == |s|
    ensures |s| > 0 ==> r[0] == s[0]
    ensures forall i :: 0 < i < |r| ==> r[i] == f(r[i - 1], s[i])
  {
    r := [];
    if s == [] {
      return;
    }
    var total := s[0];
    r := [total];
    var k := 1;
    while k < |s|
      invariant 1 <= k <= |s| && |r| == k
      invariant r[0] == s[0] && total == r[k - 1]
      invariant forall i :: 0 < i < k ==> r[i] == f(r[i - 1], s[i])
    {
      total := f(total, s[k]);
      r := r + [total];
      k := k + 1;
    }
  }

  /** `accumulate(iterable)` with its default `func=op.add`: running sums. */
  method AccumulateSums(s: seq<int>) returns (r: seq<int>)
    ensures |r| == |s|
    ensures |s| > 0 ==> r[0] == s[0]
    ensures forall i :: 0 < i < |r| ==> r[i] == r[i - 1] + s[i]
  {
    r := Accumulate(s, (a, b) => a + b);
  }

  /** The docstring's examples: sums 1 3 6 10 15, and with `op.mul` products 1 2 6 24 120. */
  method AccumulateExamples() returns (sums: seq<int>, products: seq<int>)
    ensures sums == [1, 3, 6, 10, 15]
    ensures products == [1, 2, 6, 24, 120]
  {
    var s := [1, 2, 3, 4, 5];
    sums := AccumulateSums(s);
    assert sums[0] == 1 && sums[1] == 3 && sums[2] == 6 && sums[3] == 10 && sums[4] == 15;
    products := Accumulate(s, (a, b) => a * b);
    assert products[0] == 1 && products[1] == 2 && products[2] == 6 && products[3] == 24 && products[4] == 120;
  }

  // ----- zips -----

  /** `izip(a, b)`: pairs up to the shorter input. */
  function Zip2<A, B>(a: seq<A>, b: seq<B>): (r: seq<(A, B)>)
    ensures |r| == if |a| < |b| then |a| else |b|
    ensures forall i :: 0 <= i < |r| ==> r[i] == (a[i], b[i])
    decreases |a|
  {
    if a == [] || b == [] then [] else [(a[0], b[0])] + Zip2(a[1..], b[1..])
  }

  /** `izip(a, b, c)`: triples up to the shortest input. */
  function Zip3<A, B, C>(a: seq<A>, b: seq<B>, c: seq<C>): (r: seq<(A, B, C)>)
    ensures |r| <= |a| && |r| <= |b| && |r| <= |c|
    ensures |r| == |a| || |r| == |b| || |r| == |c|
    ensures forall i :: 0 <= i < |r| ==> r[i] == (a[i], b[i], c[i])
    decreases |a|
  {
    if a == [] || b == [] || c == [] then [] else [(a[0], b[0], c[0])] + Zip3(a[1..], b[1..], c[1..])
  }

  /** A copy of an iterator advanced k times with `next(it, None)`: it never fails,
      and past the end it is simply exhausted. */
  function Drop<T>(s: seq<T>, k: nat): (r: seq<T>)
    ensures |r| == if k <= |s| then |s| - k else 0
    ensures forall i :: 0 <= i < |r| ==> r[i] == s[k + i]
  {
    if k <= |s| then s[k..] else []
  }

  // ----- pairwise, triwise -----

  /** Pairs of neighbours: (s[0], s[1]), (s[1], s[2]), … */
  function Pairwise<T>(s: seq<T>): (r: seq<(T, T)>)
    ensures |r| == if |s| == 0 then 0 else |s| - 1
    ensures forall i :: 0 <= i < |r| ==> r[i] == (s[i], s[i + 1])
  {
    Zip2(s, Drop(s, 1))
  }

  /** Triples of neighbours: (s[0], s[1], s[2]), (s[1], s[2], s[3]), … */
  function Triwise<T>(s: seq<T>): (r: seq<(T, T, T)>)
    ensures |r| == if |s| < 2 then 0 else |s| - 2
    ensures forall i :: 0 <= i < |r| ==> r[i] == (s[i], s[i + 1], s[i + 2])
  {
    Zip3(s, Drop(s, 1), Drop(s, 2))
  }

  lemma PairwiseExample()
    ensures Pairwise([0, 1, 2, 3]) == [(0, 1), (1, 2), (2, 3)]
  {
  }

  lemma TriwiseExample()
    ensures Triwise([0, 1, 2, 3, 4]) == [(0, 1, 2), (1, 2, 3), (2, 3, 4)]
  {
  }

  // ----- grouper -----

  /** `izip(*[iter(s)] * n)`: consecutive chunks of n items; an incomplete last
      chunk is dropped, and n <= 0 yields nothing. */
  function Grouper<T>(s: seq<T>, n: int): (r: seq<seq<T>>)
    ensures n <= 0 ==> r == []
    ensures forall c :: c in r ==> |c| == n
    decreases |s|
  {
    if n <= 0 || |s| < n then [] else [s[..n]] + Grouper(s[n..], n)
  }

  lemma DivUnique(a: int, n: int, q: int, r: int)
    requires n > 0 && a == n * q + r && 0 <= r < n
    ensures a / n == q
  {
    var q' := a / n;
    if q < q' {
      MulMono(q + 1, q', n);
    } else if q' < q {
      MulMono(q' + 1, q, n);
    }
  }

  lemma DivStep(a: int, n: int)
    requires n > 0 && a >= n
    ensures (a - n) / n == a / n - 1
  {
    var q, r := (a - n) / n, (a - n) % n;
    assert a == n * (q + 1) + r;
    DivUnique(a, n, q + 1, r);
  }

  lemma MulPred(i: int, n: int)
    ensures (i - 1) * n + n == i * n && i * n + n == (i + 1) * n
  {
  }

  /** For n > 0 there are |s| / n chunks. */
  lemma {:induction false} GrouperLength<T>(s: seq<T>, n: int)
    requires n > 0
    ensures |Grouper(s, n)| == |s| / n
    decreases |s|
  {
    if |s| >= n {
      GrouperLength(s[n..], n);
      DivStep(|s|, n);
    }
  }

  /** Chunk i is s[i*n .. (i+1)*n]. */
  lemma GrouperChunkAt<T>(s: seq<T>, n: int, i: nat)
    requires n > 0 && i < |Grouper(s, n)|
    ensures (i + 1) * n <= |s| && Grouper(s, n)[i] == s[i * n..(i + 1) * n]
  {
    GrouperChunkAtOffset(s, n, i);
    OffsetIsProduct(i, n);
    OffsetIsProduct(i + 1, n);
  }

  lemma {:induction false} GrouperChunkAtOffset<T>(s: seq<T>, n: nat, i: nat)
    requires n > 0 && i < |Grouper(s, n)|
    ensures Offset(i + 1, n) <= |s| && Grouper(s, n)[i] == s[Offset(i, n)..Offset(i + 1, n)]
    decreases i
  {
    var rest := s[n..];
    var g := Grouper(rest, n);
    assert Grouper(s, n) == [s[..n]] + g;
    if i > 0 {
      GrouperChunkAtOffset(rest, n, i - 1);
      SliceOfDrop(s, n, Offset(i - 1, n), Offset(i, n));
    }
  }

  lemma SliceOfDrop<T>(s: seq<T>, n: nat, lo: nat, hi: nat)
    requires n <= |s| && lo <= hi <= |s| - n
    ensures s[n..][lo..hi] == s[lo + n..hi + n]
  {
  }

  lemma GrouperExample()
    ensures Grouper("ABCDEFG", 3) == ["ABC", "DEF"]
  {
    assert Grouper("G", 3) == [];
    assert "DEFG"[..3] == "DEF" && "DEFG"[3..] == "G";
    assert Grouper("DEFG", 3) == ["DEF"];
    assert "ABCDEFG"[..3] == "ABC" && "ABCDEFG"[3..] == "DEFG";
  }

  // ----- unzip (and zip of many columns) -----

  /** The length of the shortest column. */
  function MinLen<T>(cols: seq<seq<T>>): (m: nat)
    requires cols != []
    ensures forall j :: 0 <= j < |cols| ==> m <= |cols[j]|
    decreases |cols|
  {
    if |cols| == 1 then |cols[0]|
    else
      var m := MinLen(cols[1..]);
      if |cols[0]| <= m then |cols[0]| else m
  }

  lemma {:induction false} MinLenIsAttained<T>(cols: seq<seq<T>>)
    requires cols != []
    ensures exists j :: 0 <= j < |cols| && MinLen(cols) == |cols[j]|
    decreases |cols|
  {
    if MinLen(cols) == |cols[0]| {
      assert 0 <= 0 < |cols| && MinLen(cols) == |cols[0]|;
    } else {
      MinLenIsAttained(cols[1..]);
      var j :| 0 <= j < |cols| - 1 && MinLen(cols[1..]) == |cols[1..][j]|;
      assert MinLen(cols) == |cols[j + 1]|;
    }
  }

  /** `izip(*cols)`: row i holds item i of every column, up to the shortest
      column; no columns at all give no rows. */
  function ZipN<T>(cols: seq<seq<T>>): (rows: seq<seq<T>>)
    ensures |rows| == if cols == [] then 0 else MinLen(cols)
    ensures forall i :: 0 <= i < |rows| ==> |rows[i]| == |cols|
  {
    if cols == [] then []
    else
      var m := MinLen(cols);
      seq(m, i requires 0 <= i < m => seq(|cols|, j requires 0 <= j < |cols| => cols[j][i]))
  }

  lemma ZipNAt<T>(cols: seq<seq<T>>, i: nat, j: nat)
    requires i < |ZipN(cols)| && j < |cols|
    ensures i < |cols[j]| && ZipN(cols)[i][j] == cols[j][i]
  {
  }

  /** `unzip(zipped)` is `izip(*zipped)`: the same transposition. */
  function Unzip<T>(zipped: seq<seq<T>>): (cols: seq<seq<T>>)
    ensures |cols| == if zipped == [] then 0 else MinLen(zipped)
  {
    ZipN(zipped)
  }

  /** Unzipping zipped columns gives the columns back, cut to their common
      length; when that length is 0 there are no rows and so no columns. */
  lemma UnzipZip<T>(cols: seq<seq<T>>)
    ensures cols == [] || MinLen(cols) == 0 ==> Unzip(ZipN(cols)) == []
    ensures cols != [] && MinLen(cols) > 0 ==>
              && |Unzip(ZipN(cols))| == |cols|
              && forall j :: 0 <= j < |cols| ==> Unzip(ZipN(cols))[j] == cols[j][..MinLen(cols)]
  {
    if cols != [] && MinLen(cols) > 0 {
      var rows := ZipN(cols);
      MinLenIsAttained(rows);
      var back := Unzip(rows);
      assert |back| == |cols|;
      forall j | 0 <= j < |cols|
        ensures back[j] == cols[j][..MinLen(cols)]
      {
        assert |back[j]| == |rows|;
      }
    }
  }

  /** Zipping twice is the identity on rows of one common, positive length. */
  lemma ZipNInvolution<T>(rows: seq<seq<T>>, width: nat)
    requires rows != [] && width > 0
    requires forall i :: 0 <= i < |rows| ==> |rows[i]| == width
    ensures ZipN(ZipN(rows)) == rows
  {
    MinLenIsAttained(rows);
    var cols := ZipN(rows);
    assert |cols| == width;
    MinLenIsAttained(cols);
    var back := ZipN(cols);
    assert |back| == |rows|;
    forall i | 0 <= i < |rows|
      ensures back[i] == rows[i]
    {
      forall j | 0 <= j < width
        ensures back[i][j] == rows[i][j]
      {
        ZipNAt(cols, i, j);
        ZipNAt(rows, j, i);
      }
    }
  }

  lemma UnzipExample()
    ensures Unzip([[0, 2], [1, 3], [2, 4]]) == [[0, 1, 2], [2, 3, 4]]
  {
    var z := [[0, 2], [1, 3], [2, 4]];
    assert MinLen(z) == 2;
    var r := Unzip(z);
    assert r[0] == [z[0][0], z[1][0], z[2][0]];
    assert r[1] == [z[0][1], z[1][1], z[2][1]];
  }

  // ----- sfilter -----

  /** `filter(p, s)` */
  function Filter<T>(p: T -> bool, s: seq<T>): (r: seq<T>)
    ensures |r| <= |s|
    ensures forall i :: 0 <= i < |r| ==> r[i] in s && p(r[i])
    decreases |s|
  {
    if s == [] then []
    else Filter(p, s[..|s| - 1]) + (if p(s[|s| - 1]) then [s[|s| - 1]] else [])
  }

  /** The positions of s whose item satisfies p, in increasing order. */
  function Kept<T>(p: T -> bool, s: seq<T>): (ks: seq<nat>)
    ensures forall j :: 0 <= j < |ks| ==> ks[j] < |s| && p(s[ks[j]])
    ensures forall j, k :: 0 <= j < k < |ks| ==> ks[j] < ks[k]
    ensures forall i :: 0 <= i < |s| && p(s[i]) ==> i in ks
    decreases |s|
  {
    if s == [] then []
    else Kept(p, s[..|s| - 1]) + (if p(s[|s| - 1]) then [|s| - 1] else [])
  }

  /** The filter keeps exactly the items at the kept positions, in order. */
  lemma {:induction false} FilterIsKept<T>(p: T -> bool, s: seq<T>)
    ensures |Filter(p, s)| == |Kept(p, s)|
    ensures forall j :: 0 <= j < |Kept(p, s)| ==> Filter(p, s)[j] == s[Kept(p, s)[j]]
    decreases |s|
  {
    if s != [] {
      var init := s[..|s| - 1];
      FilterIsKept(p, init);
      forall j | 0 <= j < |Kept(p, init)|
        ensures s[Kept(p, init)[j]] == init[Kept(p, init)[j]]
      {
      }
    }
  }

  /** `sfilter(p, *cols)`: zip the columns, keep the rows that satisfy p, unzip. */
  function Sfilter<T>(p: seq<T> -> bool, cols: seq<seq<T>>): (r: seq<seq<T>>)
    ensures |r| == 0 || |r| == |cols|
  {
    var kept := Filter(p, ZipN(cols));
    if kept == [] then [] else MinLenIsAttained(kept); Unzip(kept)
  }

  /** Each column keeps exactly the positions whose zipped row satisfies p, in
      order; when no row does, there are no columns in the result. */
  lemma SfilterKeepsRows<T>(p: seq<T> -> bool, cols: seq<seq<T>>)
    ensures var ks := Kept(p, ZipN(cols));
            && (ks == [] <==> Sfilter(p, cols) == [])
            && (ks != [] ==>
                  && |Sfilter(p, cols)| == |cols|
                  && forall c, j :: 0 <= c < |cols| && 0 <= j < |ks| ==>
                       |Sfilter(p, cols)[c]| == |ks| && ks[j] < |cols[c]| && Sfilter(p, cols)[c][j] == cols[c][ks[j]])
  {
    var rows := ZipN(cols);
    var ks := Kept(p, rows);
    var kept := Filter(p, rows);
    FilterIsKept(p, rows);
    if ks != [] {
      MinLenIsAttained(kept);
      assert MinLen(kept) == |cols|;
      var r := Sfilter(p, cols);
      forall c, j | 0 <= c < |cols| && 0 <= j < |ks|
        ensures |r[c]| == |ks| && ks[j] < |cols[c]| && r[c][j] == cols[c][ks[j]]
      {
        ZipNAt(kept, c, j);
        ZipNAt(cols, ks[j], c);
      }
    }
  }

  /** The docstring's example: dropping the rows that hold a `None` from
      x = [None, 1, 2, 3], y = [2, 7, 3, 4], z = [3, 4, 5, None] leaves
      x1 = (1, 2), y1 = (7, 3), z1 = (4, 5). */
  lemma SfilterExample(cols: seq<seq<Option<int>>>, p: seq<Option<int>> -> bool)
    requires cols == [[None, Some(1), Some(2), Some(3)], [Some(2), Some(7), Some(3), Some(4)], [Some(3), Some(4), Some(5), None]]
    requires forall t :: p(t) == (None !in t)
    ensures Sfilter(p, cols) == [[Some(1), Some(2)], [Some(7), Some(3)], [Some(4), Some(5)]]
  {
    var rows := ZipN(cols);
    SfilterExampleRows(cols);
    SfilterExampleKept(rows, p);
    SfilterExampleUnzip([rows[1], rows[2]]);
  }

  lemma SfilterExampleRows(cols: seq<seq<Option<int>>>)
    requires cols == [[None, Some(1), Some(2), Some(3)], [Some(2), Some(7), Some(3), Some(4)], [Some(3), Some(4), Some(5), None]]
    ensures ZipN(cols) == [[None, Some(2), Some(3)], [Some(1), Some(7), Some(4)], [Some(2), Some(3), Some(5)], [Some(3), Some(4), None]]
  {
    assert cols[2..] == [cols[2]] && cols[1..][1..] == cols[2..];
    assert MinLen(cols[2..]) == 4 && MinLen(cols[1..]) == 4 && MinLen(cols) == 4;
    var z := ZipN(cols);
    assert z[0] == [cols[0][0], cols[1][0], cols[2][0]];
    assert z[1] == [cols[0][1], cols[1][1], cols[2][1]];
    assert z[2] == [cols[0][2], cols[1][2], cols[2][2]];
    assert z[3] == [cols[0][3], cols[1][3], cols[2][3]];
  }

  lemma SfilterExampleKept(rows: seq<seq<Option<int>>>, p: seq<Option<int>> -> bool)
    requires rows == [[None, Some(2), Some(3)], [Some(1), Some(7), Some(4)], [Some(2), Some(3), Some(5)], [Some(3), Some(4), None]]
    requires forall t :: p(t) == (None !in t)
    ensures Filter(p, rows) == [rows[1], rows[2]]
  {
    assert !p(rows[0]) && p(rows[1]) && p(rows[2]) && !p(rows[3]);
    var r1, r2, r3 := rows[..1], rows[..2], rows[..3];
    assert r1[..0] == [] && r2[..1] == r1 && r3[..2] == r2;
    assert Filter(p, r1) == [];
    assert Filter(p, r2) == [rows[1]];
    assert Filter(p, r3) == [rows[1], rows[2]];
  }

  lemma SfilterExampleUnzip(kept: seq<seq<Option<int>>>)
    requires kept == [[Some(1), Some(7), Some(4)], [Some(2), Some(3), Some(5)]]
    ensures Unzip(kept) == [[Some(1), Some(2)], [Some(7), Some(3)], [Some(4), Some(5)]]
  {
    assert kept[1..] == [kept[1]];
    assert MinLen(kept) == 3;
    var u := Unzip(kept);
    assert u[0] == [kept[0][0], kept[1][0]];
    assert u[1] == [kept[0][1], kept[1][1]];
    assert u[2] == [kept[0][2], kept[1][2]];
  }

  // ----- mzip -----

  /** `dict(pairs)`: a later pair overrides an earlier one with the same key. */
  function Dict<K(==), V>(pairs: seq<(K, V)>): (m: map<K, V>)
    ensures m.Keys == set j | 0 <= j < |pairs| :: pairs[j].0
    decreases |pairs|
  {
    if pairs == [] then map[]
    else
      var last := pairs[|pairs| - 1];
      Dict(pairs[..|pairs| - 1])[last.0 := last.1]
  }

  predicate DistinctKeys<K(==), V>(pairs: seq<(K, V)>) {
    forall j, k :: 0 <= j < k < |pairs| ==> pairs[j].0 != pairs[k].0
  }

  lemma {:induction false} DictAt<K, V>(pairs: seq<(K, V)>, j: nat)
    requires DistinctKeys(pairs) && j < |pairs|
    ensures Dict(pairs)[pairs[j].0] == pairs[j].1
    decreases |pairs|
  {
    if j < |pairs| - 1 {
      DictAt(pairs[..|pairs| - 1], j);
    }
  }

  /** `mzip(mapping)`, with the mapping given as its `iteritems()`: one dict per
      position up to the shortest value, mapping every key to its value's item
      there. An empty mapping cannot be unpacked into keys and values: ValueError. */
  function ItemKeys<K, V>(items: seq<(K, seq<V>)>): (ks: seq<K>)
    ensures |ks| == |items| && forall j :: 0 <= j < |items| ==> ks[j] == items[j].0
  {
    seq(|items|, j requires 0 <= j < |items| => items[j].0)
  }

  function ItemValues<K, V>(items: seq<(K, seq<V>)>): (vs: seq<seq<V>>)
    ensures |vs| == |items| && forall j :: 0 <= j < |items| ==> vs[j] == items[j].1
  {
    seq(|items|, j requires 0 <= j < |items| => items[j].1)
  }

  function Mzip<K(==), V>(items: seq<(K, seq<V>)>): (r: Result<seq<map<K, V>>>)
    ensures r.Err? <==> items == []
    ensures r.Err? ==> r.error == ValueError
    ensures r.Ok? ==> |r.value| == MinLen(ItemValues(items))
  {
    if items == [] then Err(ValueError)
    else
      var keys := ItemKeys(items);
      var rows := ZipN(ItemValues(items));
      Ok(seq(|rows|, i requires 0 <= i < |rows| => Dict(Zip2(keys, rows[i]))))
  }

  /** There is one dict per position up to the shortest value; each has exactly
      the mapping's keys, and (the keys of a mapping being distinct) maps each key
      to its value's item at that position. */
  lemma MzipAt<K, V>(items: seq<(K, seq<V>)>, i: nat, j: nat)
    requires items != [] && i < |Mzip(items).value| && j < |items|
    requires forall a, b :: 0 <= a < b < |items| ==> items[a].0 != items[b].0
    ensures |Mzip(items).value| <= |items[j].1|
    ensures exists k :: 0 <= k < |items| && |Mzip(items).value| == |items[k].1|
    ensures Mzip(items).value[i].Keys == set k | 0 <= k < |items| :: items[k].0
    ensures Mzip(items).value[i][items[j].0] == items[j].1[i]
  {
    var keys := ItemKeys(items);
    var values := ItemValues(items);
    MinLenIsAttained(values);
    var rows := ZipN(values);
    var pairs := Zip2(keys, rows[i]);
    assert |pairs| == |items|;
    assert DistinctKeys(pairs);
    DictAt(pairs, j);
    ZipNAt(values, i, j);
    var ks := set k | 0 <= k < |items| :: items[k].0;
    assert Dict(pairs).Keys == ks by {
      forall x | x in ks
        ensures x in Dict(pairs).Keys
      {
        var k :| 0 <= k < |items| && x == items[k].0;
        assert pairs[k].0 == x;
      }
    }
  }

  lemma MzipExampleLength(items: seq<(string, seq<int>)>)
    requires items == [("a", [1, 2, 3]), ("b", [2, 3]), ("c", [3, 4, 5, 6])]
    ensures Mzip(items).Ok? && |Mzip(items).value| == 2
  {
    var v := ItemValues(items);
    MinLenIsAttained(v);
    assert MinLen(v) <= |v[1]| == 2;
  }

  /** The recipe's example: `mzip({'a': [1, 2, 3], 'b': [2, 3], 'c': [3, 4, 5, 6]})`
      gives two dicts. */
  lemma MzipExample(items: seq<(string, seq<int>)>)
    requires items == [("a", [1, 2, 3]), ("b", [2, 3]), ("c", [3, 4, 5, 6])]
    ensures Mzip(items).Ok?
    ensures Mzip(items).value == [map["a" := 1, "b" := 2, "c" := 3], map["a" := 2, "b" := 3, "c" := 4]]
  {
    MzipExampleLength(items);
    var r := Mzip(items).value;
    var keys := set k | 0 <= k < |items| :: items[k].0;
    assert keys == {"a", "b", "c"} by {
      assert items[0].0 == "a" && items[1].0 == "b" && items[2].0 == "c";
    }
    MzipAt(items, 0, 0);
    MzipAt(items, 0, 1);
    MzipAt(items, 0, 2);
    MzipAt(items, 1, 0);
    MzipAt(items, 1, 1);
    MzipAt(items, 1, 2);
    MapOfThree(r[0], 1, 2, 3);
    MapOfThree(r[1], 2, 3, 4);
    SeqOfTwo(r);
  }

  lemma MapOfThree(m: map<string, int>, a: int, b: int, c: int)
    requires m.Keys == {"a", "b", "c"} && m["a"] == a && m["b"] == b && m["c"] == c
    ensures m == map["a" := a, "b" := b, "c" := c]
  {
  }

  lemma SeqOfTwo<T>(r: seq<T>)
    requires |r| == 2
    ensures r == [r[0], r[1]]
  {
  }

  // ----- uniquify -----

  /** The position of the first occurrence of x in s. */
  function FirstIndex<T(==)>(s: seq<T>, x: T): (i: nat)
    requires x in s
    ensures i < |s| && s[i] == x && x !in s[..i]
    decreases |s|
  {
    if s[0] == x then 0 else 1 + FirstIndex(s[1..], x)
  }

  predicate NoDuplicates<T(==)>(s: seq<T>) {
    forall i, j :: 0 <= i < j < |s| ==> s[i] != s[j]
  }

  /** The items of s without repetition, each at its first occurrence. */
  function Uniquified<T(==)>(s: seq<T>): (r: seq<T>)
    ensures |r| <= |s|
    decreases |s|
  {
    if s == [] then []
    else
      var u := Uniquified(s[..|s| - 1]);
      var x := s[|s| - 1];
      if x in u then u else u + [x]
  }

  /** The result repeats nothing, holds only items of s, and holds every item of s. */
  lemma {:induction false} UniquifiedSpec<T>(s: seq<T>)
    ensures NoDuplicates(Uniquified(s))
    ensures forall i :: 0 <= i < |Uniquified(s)| ==> Uniquified(s)[i] in s
    ensures forall i :: 0 <= i < |s| ==> s[i] in Uniquified(s)
    decreases |s|
  {
    if s != [] {
      var init, x := s[..|s| - 1], s[|s| - 1];
      var u := Uniquified(init);
      var r := Uniquified(s);
      UniquifiedSpec(init);
      assert r == if x in u then u else u + [x];
      forall i | 0 <= i < |r|
        ensures r[i] in s
      {
        if i < |u| {
          var j :| 0 <= j < |init| && init[j] == u[i];
          assert s[j] == r[i];
        } else {
          assert r[i] == s[|s| - 1];
        }
      }
      forall i | 0 <= i < |s|
        ensures s[i] in r
      {
        if i < |init| {
          assert s[i] == init[i];
        }
      }
    }
  }

  /** The items come out in the order of their first occurrences. */
  lemma {:induction false} UniquifiedOrder<T>(s: seq<T>)
    ensures forall i :: 0 <= i < |Uniquified(s)| ==> Uniquified(s)[i] in s
    ensures forall i, j :: 0 <= i < j < |Uniquified(s)| ==>
              FirstIndex(s, Uniquified(s)[i]) < FirstIndex(s, Uniquified(s)[j])
    decreases |s|
  {
    UniquifiedSpec(s);
    if s != [] {
      var init := s[..|s| - 1];
      var u := Uniquified(init);
      UniquifiedSpec(init);
      UniquifiedOrder(init);
      forall x | x in init
        ensures FirstIndex(s, x) == FirstIndex(init, x)
      {
        FirstIndexPrefix(init, s, x);
      }
      var x := s[|s| - 1];
      if x !in u {
        assert FirstIndex(s, x) == |s| - 1;
      }
    }
  }

  lemma {:induction false} FirstIndexPrefix<T>(p: seq<T>, s: seq<T>, x: T)
    requires p <= s && x in p
    ensures FirstIndex(s, x) == FirstIndex(p, x)
    decreases |p|
  {
    if p[0] != x {
      FirstIndexPrefix(p[1..], s[1..], x);
    }
  }

  /** Yields each item the first time it is seen. */
  method Uniquify<T(==)>(s: seq<T>) returns (r: seq<T>)
    ensures r == Uniquified(s)
  {
    var seen: set<T> := {};
    r := [];
    var k := 0;
    while k < |s|
      invariant 0 <= k <= |s|
      invariant r == Uniquified(s[..k])
      invariant forall x :: x in seen <==> x in r
    {
      assert s[..k + 1][..k] == s[..k];
      var x := s[k];
      if x !in seen {
        seen := seen + {x};
        r := r + [x];
      }
      k := k + 1;
    }
    assert s[..k] == s;
  }

  /** One more item of s: kept when it is new, skipped when it was seen. */
  lemma UniquifiedPrefixStep<T>(s: seq<T>, k: int, u: seq<T>)
    requires 0 <= k < |s| && Uniquified(s[..k]) == u
    ensures Uniquified(s[..k + 1]) == if s[k] in u then u else u + [s[k]]
  {
    assert s[..k + 1][..k] == s[..k];
  }

  lemma UniquifyExampleHead(s: seq<int>)
    requires s == [1, 2, 2, 3, 3, 5, 1, 4, 5, 4]
    ensures Uniquified(s[..4]) == [1, 2, 3]
  {
    assert s[..0] == [];
    UniquifiedPrefixStep(s, 0, []);
    UniquifiedPrefixStep(s, 1, [1]);
    UniquifiedPrefixStep(s, 2, [1, 2]);
    UniquifiedPrefixStep(s, 3, [1, 2]);
  }

  lemma UniquifyExampleMiddle(s: seq<int>)
    requires s == [1, 2, 2, 3, 3, 5, 1, 4, 5, 4]
    requires Uniquified(s[..4]) == [1, 2, 3]
    ensures Uniquified(s[..7]) == [1, 2, 3, 5]
  {
    UniquifiedPrefixStep(s, 4, [1, 2, 3]);
    UniquifiedPrefixStep(s, 5, [1, 2, 3]);
    UniquifiedPrefixStep(s, 6, [1, 2, 3, 5]);
  }

  lemma UniquifyExampleTail(s: seq<int>)
    requires s == [1, 2, 2, 3, 3, 5, 1, 4, 5, 4]
    requires Uniquified(s[..7]) == [1, 2, 3, 5]
    ensures Uniquified(s) == [1, 2, 3, 5, 4]
  {
    UniquifiedPrefixStep(s, 7, [1, 2, 3, 5]);
    UniquifiedPrefixStep(s, 8, [1, 2, 3, 5, 4]);
    UniquifiedPrefixStep(s, 9, [1, 2, 3, 5, 4]);
    assert s[..10] == s;
  }

  /** The recipe's example: repeated items are dropped, first occurrences kept in order. */
  lemma UniquifyExample(s: seq<int>)
    requires s == [1, 2, 2, 3, 3, 5, 1, 4, 5, 4]
    ensures Uniquified(s) == [1, 2, 3, 5, 4]
  {
    UniquifyExampleHead(s);
    UniquifyExampleMiddle(s);
    UniquifyExampleTail(s);
  }

  // ----- roundrobin -----

  /** The number of items left in all the inputs together. */
  function TotalLen<T>(q: seq<seq<T>>): nat
    decreases |q|
  {
    if q == [] then 0 else |q[0]| + TotalLen(q[1..])
  }

  lemma {:induction false} TotalLenAppend<T>(a: seq<seq<T>>, b: seq<seq<T>>)
    ensures TotalLen(a + b) == TotalLen(a) + TotalLen(b)
    decreases |a|
  {
    if a == [] {
      assert a + b == b;
    } else {
      assert (a + b)[0] == a[0] && (a + b)[1..] == a[1..] + b;
      TotalLenAppend(a[1..], b);
    }
  }

  /** All the inputs one after the other. */
  function Concat<T>(q: seq<seq<T>>): seq<T>
    decreases |q|
  {
    if q == [] then [] else q[0] + Concat(q[1..])
  }

  /** The first item of every non-empty input, in input order: one round. */
  function Heads<T>(q: seq<seq<T>>): seq<T>
    decreases |q|
  {
    if q == [] then [] else (if q[0] == [] then [] else [q[0][0]]) + Heads(q[1..])
  }

  /** What remains of the non-empty inputs after one round. */
  function Tails<T>(q: seq<seq<T>>): (t: seq<seq<T>>)
    ensures |t| <= |q|
    ensures TotalLen(t) + |t| == TotalLen(q)
    decreases |q|
  {
    if q == [] then []
    else
      var head := if q[0] == [] then [] else [q[0][1..]];
      var rest := Tails(q[1..]);
      TotalLenAppend(head, rest);
      head + rest
  }

  /** Round-robin by rounds: the heads of all inputs, then round-robin of the rest. */
  function Rounds<T>(q: seq<seq<T>>): seq<T>
    decreases TotalLen(q) + |q|
  {
    if q == [] then [] else Heads(q) + Rounds(Tails(q))
  }

  /** The recipe's cycle of iterators, one `next()` at a time: an exhausted
      iterator leaves the cycle and the rotation goes on with the next one. */
  ghost function Cycle<T>(q: seq<seq<T>>): seq<T>
    decreases TotalLen(q) + |q|
  {
    if q == [] then []
    else if q[0] == [] then Cycle(q[1..])
    else
      TotalLenAppend(q[1..], [q[0][1..]]);
      [q[0][0]] + Cycle(q[1..] + [q[0][1..]])
  }

  /** Concatenation is associative; stated apart so that proofs about the
      recursive functions here need not rediscover it. */
  lemma Assoc<T>(a: seq<T>, b: seq<T>, c: seq<T>)
    ensures a + (b + c) == a + b + c
  {
  }

  lemma CycleStep<T>(q: seq<seq<T>>)
    requires q != [] && q[0] != []
    ensures Cycle(q) == [q[0][0]] + Cycle(q[1..] + [q[0][1..]])
  {
  }

  /** Running the cycle through a prefix A of the queue yields A's heads and
      leaves B followed by A's tails. */
  lemma {:induction false} CycleThrough<T>(a: seq<seq<T>>, b: seq<seq<T>>)
    ensures Cycle(a + b) == Heads(a) + Cycle(b + Tails(a))
    decreases |a|
  {
    if a == [] {
      assert a + b == b && b + Tails(a) == b;
    } else {
      var h, a' := a[0], a[1..];
      assert (a + b)[0] == h && (a + b)[1..] == a' + b;
      if h == [] {
        CycleThrough(a', b);
        assert Heads(a) == Heads(a') && Tails(a) == Tails(a');
      } else {
        var t := [h[1..]];
        assert Heads(a) == [h[0]] + Heads(a') && Tails(a) == t + Tails(a');
        calc {
          Cycle(a + b);
          { CycleStep(a + b); }
          [h[0]] + Cycle(a' + b + t);
          { Assoc(a', b, t); }
          [h[0]] + Cycle(a' + (b + t));
          { CycleThrough(a', b + t); }
          [h[0]] + (Heads(a') + Cycle(b + t + Tails(a')));
          { Assoc(b, t, Tails(a')); }
          [h[0]] + (Heads(a') + Cycle(b + Tails(a)));
          { Assoc([h[0]], Heads(a'), Cycle(b + Tails(a))); }
          Heads(a) + Cycle(b + Tails(a));
        }
      }
    }
  }

  lemma {:induction false} CycleIsRounds<T>(q: seq<seq<T>>)
    ensures Cycle(q) == Rounds(q)
    decreases TotalLen(q) + |q|
  {
    if q != [] {
      CycleThrough(q, []);
      assert q + [] == q && [] + Tails(q) == Tails(q);
      CycleIsRounds(Tails(q));
    }
  }

  /** `roundrobin(*iterables)`: the recipe's loop over a rotating queue of iterators. */
  method RoundRobin<T>(iterables: seq<seq<T>>) returns (out: seq<T>)
    ensures out == Rounds(iterables)
  {
    var queue := iterables;
    var pending := |iterables|;
    out := [];
    while pending > 0
      invariant pending == |queue|
      invariant out + Cycle(queue) == Cycle(iterables)
      decreases TotalLen(queue) + |queue|
    {
      var h := queue[0];
      if h == [] {
        pending := pending - 1;
        queue := queue[1..];
      } else {
        out := out + [h[0]];
        TotalLenAppend(queue[1..], [h[1..]]);
        queue := queue[1..] + [h[1..]];
      }
    }
    assert out + [] == out;
    CycleIsRounds(iterables);
  }

  lemma {:induction false} ConcatAppend<T>(a: seq<seq<T>>, b: seq<seq<T>>)
    ensures Concat(a + b) == Concat(a) + Concat(b)
    decreases |a|
  {
    if a == [] {
      assert a + b == b;
    } else {
      assert (a + b)[0] == a[0] && (a + b)[1..] == a[1..] + b;
      ConcatAppend(a[1..], b);
    }
  }

  lemma RoundCons<T>(q: seq<seq<T>>)
    requires q != []
    ensures var hh: seq<T> := if q[0] == [] then [] else [q[0][0]];
            var ht: seq<seq<T>> := if q[0] == [] then [] else [q[0][1..]];
            && Heads(q) == hh + Heads(q[1..])
            && Tails(q) == ht + Tails(q[1..])
            && Concat(q) == q[0] + Concat(q[1..])
            && q[0] == hh + Concat(ht)
  {
    var h := q[0];
    if h != [] {
      assert Concat([h[1..]]) == h[1..] + Concat([]);
      assert h == [h[0]] + h[1..];
    }
  }

  lemma {:induction false} RoundMultiset<T>(q: seq<seq<T>>)
    ensures multiset(Heads(q)) + multiset(Concat(Tails(q))) == multiset(Concat(q))
    decreases |q|
  {
    if q != [] {
      var h, rest := q[0], q[1..];
      var hh: seq<T> := if h == [] then [] else [h[0]];
      var ht: seq<seq<T>> := if h == [] then [] else [h[1..]];
      RoundCons(q);
      RoundMultiset(rest);
      ConcatAppend(ht, Tails(rest));
      calc {
        multiset(Heads(q)) + multiset(Concat(Tails(q)));
        multiset(hh + Heads(rest)) + multiset(Concat(ht + Tails(rest)));
        multiset(hh) + multiset(Heads(rest)) + multiset(Concat(ht) + Concat(Tails(rest)));
        multiset(hh) + multiset(Concat(ht)) + (multiset(Heads(rest)) + multiset(Concat(Tails(rest))));
        multiset(hh + Concat(ht)) + multiset(Concat(rest));
        multiset(h + Concat(rest));
        multiset(Concat(q));
      }
    }
  }

  /** Every item of every input comes out exactly once. */
  lemma {:induction false} RoundsMultiset<T>(q: seq<seq<T>>)
    ensures multiset(Rounds(q)) == multiset(Concat(q))
    decreases TotalLen(q) + |q|
  {
    if q != [] {
      RoundMultiset(q);
      RoundsMultiset(Tails(q));
    }
  }

  /** With m inputs of one common length n, the output has n*m items. */
  lemma {:induction false} RoundsUniformLength<T>(q: seq<seq<T>>, n: nat)
    requires forall i :: 0 <= i < |q| ==> |q[i]| == n
    ensures |Rounds(q)| == n * |q|
    decreases n
  {
    if q == [] {
    } else if n == 0 {
      AllEmpty(q);
    } else {
      HeadsTailsUniform(q, n);
      RoundsUniformLength(Tails(q), n - 1);
      MulPred(n, |q|);
    }
  }

  /** With m inputs of one common length n, item r of input i comes out at
      position r*m + i: the inputs are interleaved, each in its own order. */
  lemma RoundsUniformAt<T>(q: seq<seq<T>>, n: nat, r: nat, i: nat)
    requires forall k :: 0 <= k < |q| ==> |q[k]| == n
    requires r < n && i < |q|
    ensures 0 <= r * |q| + i < |Rounds(q)| && Rounds(q)[r * |q| + i] == q[i][r]
  {
    RoundsAtOffset(q, n, |q|, r, i);
    OffsetIsProduct(r, |q|);
    SameIndex(Rounds(q), Offset(r, |q|) + i, r * |q| + i, q[i][r]);
  }

  lemma SameIndex<T>(s: seq<T>, a: int, b: int, x: T)
    requires a == b && 0 <= a < |s| && s[a] == x
    ensures 0 <= b < |s| && s[b] == x
  {
  }

  /** r rounds of m items each: r * m, written without multiplication. */
  function Offset(r: nat, m: nat): nat {
    if r == 0 then 0 else m + Offset(r - 1, m)
  }

  lemma {:induction false} OffsetIsProduct(r: nat, m: nat)
    ensures Offset(r, m) == r * m
  {
    if r > 0 {
      OffsetIsProduct(r - 1, m);
      MulPred(r, m);
    }
  }

  lemma RoundsAtOffset<T>(q: seq<seq<T>>, n: nat, m: nat, r: nat, i: nat)
    requires forall k :: 0 <= k < |q| ==> |q[k]| == n
    requires |q| == m && r < n && i < m
    ensures Offset(r, m) + i < |Rounds(q)| && Rounds(q)[Offset(r, m) + i] == q[i][r]
  {
    RoundsIsConcat(q);
    forall k | 0 <= k <= r
      ensures k < |Layers(q)| && |Layers(q)[k]| == m
    {
      LayerAt(q, n, k);
    }
    LayerAt(q, n, r);
    ConcatAt(Layers(q), m, r, i);
  }

  /** The rounds one by one. */
  function Layers<T>(q: seq<seq<T>>): (l: seq<seq<T>>)
    decreases TotalLen(q) + |q|
  {
    if q == [] then [] else [Heads(q)] + Layers(Tails(q))
  }

  /** Round-robin is the concatenation of its rounds. */
  lemma {:induction false} RoundsIsConcat<T>(q: seq<seq<T>>)
    ensures Rounds(q) == Concat(Layers(q))
    decreases TotalLen(q) + |q|
  {
    if q != [] {
      RoundsIsConcat(Tails(q));
      var l := Layers(q);
      assert l[0] == Heads(q) && l[1..] == Layers(Tails(q));
    }
  }

  /** With inputs of one common length n, round r (r < n) holds item r of every input. */
  lemma {:induction false} LayerAt<T>(q: seq<seq<T>>, n: nat, r: nat)
    requires forall k :: 0 <= k < |q| ==> |q[k]| == n
    requires q != [] && r < n
    ensures r < |Layers(q)| && |Layers(q)[r]| == |q|
    ensures forall i :: 0 <= i < |q| ==> Layers(q)[r][i] == q[i][r]
    decreases r
  {
    HeadsTailsUniform(q, n);
    assert Layers(q) == [Heads(q)] + Layers(Tails(q));
    if r > 0 {
      LayerAt(Tails(q), n - 1, r - 1);
    }
  }

  /** In a concatenation of parts of length m, item i of part r sits at r*m + i. */
  lemma {:induction false} ConcatAt<T>(l: seq<seq<T>>, m: nat, r: nat, i: nat)
    requires r < |l| && i < m
    requires forall k :: 0 <= k <= r ==> |l[k]| == m
    ensures Offset(r, m) + i < |Concat(l)| && Concat(l)[Offset(r, m) + i] == l[r][i]
    decreases r
  {
    assert Concat(l) == l[0] + Concat(l[1..]);
    if r > 0 {
      ConcatAt(l[1..], m, r - 1, i);
    }
  }

  lemma RoundsUnfold<T>(q: seq<seq<T>>)
    requires q != []
    ensures Rounds(q) == Heads(q) + Rounds(Tails(q))
  {
  }

  lemma MulMono(a: int, b: int, m: int)
    requires 0 <= a <= b && m >= 0
    ensures a * m <= b * m
  {
  }

  lemma {:induction false} AllEmpty<T>(q: seq<seq<T>>)
    requires forall i :: 0 <= i < |q| ==> q[i] == []
    ensures Heads(q) == [] && Tails(q) == []
    decreases |q|
  {
    if q != [] {
      AllEmpty(q[1..]);
    }
  }

  lemma {:induction false} HeadsTailsUniform<T>(q: seq<seq<T>>, n: nat)
    requires n > 0 && forall i :: 0 <= i < |q| ==> |q[i]| == n
    ensures |Heads(q)| == |q| && forall i :: 0 <= i < |q| ==> Heads(q)[i] == q[i][0]
    ensures |Tails(q)| == |q| && forall i :: 0 <= i < |q| ==> Tails(q)[i] == q[i][1..]
    decreases |q|
  {
    if q != [] {
      HeadsTailsUniform(q[1..], n);
    }
  }

  // Each input keeps its own order, whatever the lengths.

  lemma {:induction false} FilterAppend<T>(p: T -> bool, a: seq<T>, b: seq<T>)
    ensures Filter(p, a + b) == Filter(p, a) + Filter(p, b)
    decreases |b|
  {
    if b == [] {
      assert a + b == a;
    } else {
      var b' := b[..|b| - 1];
      assert (a + b)[..|a + b| - 1] == a + b' && (a + b)[|a + b| - 1] == b[|b| - 1];
      FilterAppend(p, a, b');
    }
  }

  /** At most one input holds items satisfying p: once an input does, no later one does. */
  ghost predicate Alone<T>(p: T -> bool, q: seq<seq<T>>)
    decreases |q|
  {
    q == [] || ((Filter(p, q[0]) == [] || Filter(p, Concat(q[1..])) == []) && Alone(p, q[1..]))
  }

  /** Under Alone, the p-items of one round followed by those of the tails are the
      p-items of the inputs in input order. */
  lemma {:induction false} HeadsTailsFilter<T>(p: T -> bool, q: seq<seq<T>>)
    requires Alone(p, q)
    ensures Filter(p, Heads(q)) + Filter(p, Concat(Tails(q))) == Filter(p, Concat(q))
    decreases |q|
  {
    if q != [] {
      var h, rest := q[0], q[1..];
      var hh: seq<T> := if h == [] then [] else [h[0]];
      var ht: seq<seq<T>> := if h == [] then [] else [h[1..]];
      RoundCons(q);
      HeadsTailsFilter(p, rest);
      var a, c := Filter(p, hh), Filter(p, Concat(ht));
      var fh, fr := Filter(p, Heads(rest)), Filter(p, Concat(Tails(rest)));
      assert Filter(p, Heads(q)) == a + fh by {
        FilterAppend(p, hh, Heads(rest));
      }
      assert Filter(p, Concat(Tails(q))) == c + fr by {
        ConcatAppend(ht, Tails(rest));
        FilterAppend(p, Concat(ht), Concat(Tails(rest)));
      }
      assert Filter(p, h) == a + c by {
        FilterAppend(p, hh, Concat(ht));
      }
      assert Filter(p, Concat(q)) == Filter(p, h) + (fh + fr) by {
        FilterAppend(p, h, Concat(rest));
      }
      Interleave(a, c, fh, fr);
    }
  }

  /** Two runs can be swapped when one of them is empty. */
  lemma Interleave<T>(a: seq<T>, c: seq<T>, fh: seq<T>, fr: seq<T>)
    requires a + c == [] || c == [] || fh + fr == []
    ensures a + fh + (c + fr) == a + c + (fh + fr)
  {
  }

  lemma AloneCons<T>(p: T -> bool, x: seq<T>, r: seq<seq<T>>)
    requires Filter(p, x) == [] || Filter(p, Concat(r)) == []
    requires Alone(p, r)
    ensures Alone(p, [x] + r)
  {
    assert ([x] + r)[0] == x && ([x] + r)[1..] == r;
  }

  /** What is left after a round still has its p-items in at most one input. */
  lemma {:induction false} TailsAlone<T>(p: T -> bool, q: seq<seq<T>>)
    requires Alone(p, q)
    ensures Alone(p, Tails(q))
    decreases |q|
  {
    if q != [] {
      var h, rest := q[0], q[1..];
      TailsAlone(p, rest);
      if h != [] {
        assert Tails(q) == [h[1..]] + Tails(rest);
        assert Filter(p, h[1..]) == [] || Filter(p, Concat(Tails(rest))) == [] by {
          assert h == [h[0]] + h[1..];
          FilterAppend(p, [h[0]], h[1..]);
          HeadsTailsFilter(p, rest);
        }
        AloneCons(p, h[1..], Tails(rest));
      } else {
        assert Tails(q) == Tails(rest);
      }
    }
  }

  /** Round-robin takes the p-items in input order when only one input has any. */
  lemma {:induction false} RoundsFilter<T>(p: T -> bool, q: seq<seq<T>>)
    requires Alone(p, q)
    ensures Filter(p, Rounds(q)) == Filter(p, Concat(q))
    decreases TotalLen(q) + |q|
  {
    if q != [] {
      RoundsUnfold(q);
      FilterAppend(p, Heads(q), Rounds(Tails(q)));
      TailsAlone(p, q);
      RoundsFilter(p, Tails(q));
      HeadsTailsFilter(p, q);
    }
  }

  /** `imap(f, s)` */
  function Map<A, B>(f: A -> B, s: seq<A>): (r: seq<B>)
    ensures |r| == |s|
    ensures forall i :: 0 <= i < |s| ==> r[i] == f(s[i])
  {
    seq(|s|, i requires 0 <= i < |s| => f(s[i]))
  }

  /** f applied to every item of every input. */
  function MapAll<A, B>(f: A -> B, q: seq<seq<A>>): (r: seq<seq<B>>)
    ensures |r| == |q|
    ensures forall i :: 0 <= i < |q| ==> r[i] == Map(f, q[i])
  {
    seq(|q|, i requires 0 <= i < |q| => Map(f, q[i]))
  }

  lemma {:induction false} HeadsTailsMap<A, B>(f: A -> B, q: seq<seq<A>>)
    ensures Heads(MapAll(f, q)) == Map(f, Heads(q))
    ensures Tails(MapAll(f, q)) == MapAll(f, Tails(q))
    ensures TotalLen(MapAll(f, q)) == TotalLen(q)
    decreases |q|
  {
    if q != [] {
      var m := MapAll(f, q);
      assert m[0] == Map(f, q[0]) && m[1..] == MapAll(f, q[1..]);
      HeadsTailsMap(f, q[1..]);
      RoundCons(q);
      if q[0] != [] {
        assert Map(f, q[0])[1..] == Map(f, q[0][1..]);
      }
    }
  }

  /** Round-robin commutes with mapping the items. */
  lemma {:induction false} RoundsMap<A, B>(f: A -> B, q: seq<seq<A>>)
    ensures Rounds(MapAll(f, q)) == Map(f, Rounds(q))
    decreases TotalLen(q) + |q|
  {
    if q != [] {
      var m := MapAll(f, q);
      calc {
        Rounds(m);
        { RoundsUnfold(m); }
        Heads(m) + Rounds(Tails(m));
        { HeadsTailsMap(f, q); }
        Map(f, Heads(q)) + Rounds(MapAll(f, Tails(q)));
        { RoundsMap(f, Tails(q)); }
        Map(f, Heads(q)) + Map(f, Rounds(Tails(q)));
        { MapAppend(f, Heads(q), Rounds(Tails(q))); }
        Map(f, Heads(q) + Rounds(Tails(q)));
        { RoundsUnfold(q); }
        Map(f, Rounds(q));
      }
    }
  }

  lemma MapAppend<A, B>(f: A -> B, a: seq<A>, b: seq<A>)
    ensures Map(f, a + b) == Map(f, a) + Map(f, b)
  {
  }

  /** An item together with the index of the input it came from. */
  datatype Labelled<T> = Labelled(input: nat, item: T)

  function Item<T>(l: Labelled<T>): T {
    l.item
  }

  function FromInput<T>(i: nat): Labelled<T> -> bool {
    (l: Labelled<T>) => l.input == i
  }

  /** Input i's items labelled with i. */
  function Label<T>(i: nat, s: seq<T>): (r: seq<Labelled<T>>)
    ensures |r| == |s| && forall k :: 0 <= k < |s| ==> r[k] == Labelled(i, s[k])
  {
    Map(x => Labelled(i, x), s)
  }

  /** Every input labelled with its index, counting from base. */
  function LabelAll<T>(q: seq<seq<T>>, base: nat): (r: seq<seq<Labelled<T>>>)
    ensures |r| == |q| && forall k :: 0 <= k < |q| ==> r[k] == Label(base + k, q[k])
    decreases |q|
  {
    if q == [] then [] else [Label(base, q[0])] + LabelAll(q[1..], base + 1)
  }

  lemma FilterNone<T>(p: T -> bool, s: seq<T>)
    requires forall k :: 0 <= k < |s| ==> !p(s[k])
    ensures Filter(p, s) == []
  {
  }

  lemma {:induction false} FilterAll<T>(p: T -> bool, s: seq<T>)
    requires forall k :: 0 <= k < |s| ==> p(s[k])
    ensures Filter(p, s) == s
    decreases |s|
  {
    if s != [] {
      FilterAll(p, s[..|s| - 1]);
    }
  }

  lemma {:induction false} LabelledElsewhere<T>(q: seq<seq<T>>, base: nat, i: nat)
    requires i < base
    ensures Filter(FromInput(i), Concat(LabelAll(q, base))) == []
    decreases |q|
  {
    if q != [] {
      var l := LabelAll(q, base);
      assert l[0] == Label(base, q[0]) && l[1..] == LabelAll(q[1..], base + 1);
      FilterAppend(FromInput(i), l[0], Concat(l[1..]));
      FilterNone(FromInput(i), l[0]);
      LabelledElsewhere(q[1..], base + 1, i);
    }
  }

  lemma {:induction false} LabelledOwn<T>(q: seq<seq<T>>, base: nat, i: nat)
    requires base <= i < base + |q|
    ensures Filter(FromInput(i), Concat(LabelAll(q, base))) == Label(i, q[i - base])
    decreases |q|
  {
    var l := LabelAll(q, base);
    assert l[0] == Label(base, q[0]) && l[1..] == LabelAll(q[1..], base + 1);
    FilterAppend(FromInput(i), l[0], Concat(l[1..]));
    if i == base {
      FilterAll(FromInput(i), l[0]);
      LabelledElsewhere(q[1..], base + 1, i);
      assert l[0] + [] == l[0];
    } else {
      FilterNone(FromInput(i), l[0]);
      LabelledOwn(q[1..], base + 1, i);
      assert q[1..][i - (base + 1)] == q[i - base];
    }
  }

  lemma {:induction false} LabelledAlone<T>(q: seq<seq<T>>, base: nat, i: nat)
    ensures Alone(FromInput(i), LabelAll(q, base))
    decreases |q|
  {
    if q != [] {
      var l := LabelAll(q, base);
      assert l[0] == Label(base, q[0]) && l[1..] == LabelAll(q[1..], base + 1);
      if i == base {
        LabelledElsewhere(q[1..], base + 1, i);
      } else {
        FilterNone(FromInput(i), l[0]);
      }
      LabelledAlone(q[1..], base + 1, i);
    }
  }

  lemma {:induction false} UnlabelAll<T>(q: seq<seq<T>>, base: nat)
    ensures MapAll(Item, LabelAll(q, base)) == q
  {
    var m := MapAll(Item, LabelAll(q, base));
    forall k | 0 <= k < |q|
      ensures m[k] == q[k]
    {
    }
  }

  /** For inputs of any lengths: label every item with the index of its input.
      Round-robin of the labelled inputs, labels dropped, is round-robin of the
      inputs; and the items it takes from input i are input i's, in their order. */
  lemma RoundsKeepsEachInput<T>(q: seq<seq<T>>, i: nat)
    requires i < |q|
    ensures Map(Item, Rounds(LabelAll(q, 0))) == Rounds(q)
    ensures Filter(FromInput(i), Rounds(LabelAll(q, 0))) == Label(i, q[i])
  {
    RoundsMap(Item, LabelAll(q, 0));
    UnlabelAll(q, 0);
    LabelledAlone(q, 0, i);
    RoundsFilter(FromInput(i), LabelAll(q, 0));
    LabelledOwn(q, 0, i);
  }

  lemma RoundOne()
    ensures Heads(["ABC", "D", "EF"]) == "ADE" && Tails(["ABC", "D", "EF"]) == ["BC", "", "F"]
  {
  }

  lemma RoundTwo()
    ensures Heads(["BC", "", "F"]) == "BF" && Tails(["BC", "", "F"]) == ["C", ""]
  {
  }

  lemma RoundThree()
    ensures Heads(["C", ""]) == "C" && Tails(["C", ""]) == [""]
    ensures Heads([""]) == "" && Tails([""]) == []
  {
  }

  /** The recipe's example: `roundrobin('ABC', 'D', 'EF')` gives A D E B F C. */
  lemma RoundRobinExample(q: seq<string>)
    requires q == ["ABC", "D", "EF"]
    ensures Rounds(q) == "ADEBFC"
  {
    RoundOne();
    RoundTwo();
    RoundThree();
    var q2 := Tails(q);
    var q3 := Tails(q2);
    var q4 := Tails(q3);
    RoundsUnfold(q);
    RoundsUnfold(q2);
    RoundsUnfold(q3);
    RoundsUnfold(q4);
    assert Tails(q4) == [];
    assert "ADE" + ("BF" + ("C" + ("" + []))) == "ADEBFC";
  }
}
