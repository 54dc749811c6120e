/**
 * `_tranform_table` inside `scraping_by_number` (scraping.py:331-344): the
 * cells of the procedural-history table arrive as one flat list of texts and
 * are regrouped into records of `col` cells, each zipped with the six
 * column names.
 */
module Actuaciones {
  import opened Text

  /** The column names of one procedural-history record, in declared order. */
  const Columns: seq<string> := [
    "fecha_actuacion",
    "actuacion",
    "anotacion",
    "fecha_inicia_termino",
    "fecha_finaliza_termino",
    "fecha_registro"
  ]

  /** One record: the dict `dict(zip(columns, chunk))`, as its pairs in insertion order. */
  type Actuacion = seq<(string, string)>

  /** Python's `zip`: pairs up to the shorter of the two sequences. */
  function Zip<A, B>(xs: seq<A>, ys: seq<B>): (r: seq<(A, B)>)
    ensures |r| == Min(|xs|, |ys|)
    ensures forall i :: 0 <= i < |r| ==> r[i] == (xs[i], ys[i])
  {
    if xs == [] || ys == [] then [] else [(xs[0], ys[0])] + Zip(xs[1..], ys[1..])
  }

  /** `[s[i:i + n] for i in range(0, len(s), n)]`, one step of the range at a time. */
  function Chunks<T>(s: seq<T>, n: nat): (r: seq<seq<T>>)
    requires n > 0
    ensures forall k :: 0 <= k < |r| ==> 0 < |r[k]| <= n
    ensures forall k :: 0 <= k < |r| - 1 ==> |r[k]| == n
    decreases |s|
  {
    if s == [] then [] else [s[..Min(n, |s|)]] + Chunks(s[Min(n, |s|)..], n)
  }

  function Flatten<T>(ss: seq<seq<T>>): seq<T>
  {
    if ss == [] then [] else ss[0] + Flatten(ss[1..])
  }

  /** The keys of one record, in order. */
  function KeysOf(a: Actuacion): seq<string>
  {
    seq(|a|, i requires 0 <= i < |a| => a[i].0)
  }

  /** The values of one record, in order. */
  function ValuesOf(a: Actuacion): seq<string>
  {
    seq(|a|, i requires 0 <= i < |a| => a[i].1)
  }

  /** The values of all records, record after record. */
  function AllValues(t: seq<Actuacion>): seq<string>
  {
    if t == [] then [] else ValuesOf(t[0]) + AllValues(t[1..])
  }

  /** `_tranform_table(data, col)`, with `data` given as the cells' texts. */
  function TransformTable(cells: seq<string>, col: nat): (r: seq<Actuacion>)
    requires col > 0
    ensures |r| == |Chunks(cells, col)|
  {
    var cs := Chunks(cells, col);
    seq(|cs|, k requires 0 <= k < |cs| => Zip(Columns, cs[k]))
  }

  // -------------------------------------------------------------- chunks

  /** Six cells to a chunk, the only size the scraper uses, gives `ceil(|s| / 6)` chunks: the short last chunk is kept. */
  lemma {:induction false} ChunkCount<T>(s: seq<T>)
    ensures |Chunks(s, 6)| == (|s| + 5) / 6
    decreases |s|
  {
    if s != [] {
      ChunkCount(s[Min(6, |s|)..]);
    }
  }

  /** Chunk `k` is the slice `s[6 * k : 6 * k + 6]`, exactly as the comprehension's range produces it. */
  lemma {:induction false} ChunkAt<T>(s: seq<T>, k: nat)
    requires k < |Chunks(s, 6)|
    ensures 6 * k < |s|
    ensures Chunks(s, 6)[k] == s[6 * k..Min(6 * k + 6, |s|)]
    decreases |s|
  {
    if k > 0 {
      var m := Min(6, |s|);
      var rest := s[m..];
      assert Chunks(s, 6) == [s[..m]] + Chunks(rest, 6);
      assert Chunks(s, 6)[k] == Chunks(rest, 6)[k - 1];
      ChunkAt(rest, k - 1);
      assert m == 6 && |rest| == |s| - 6;
      var lo, hi := 6 * (k - 1), Min(6 * (k - 1) + 6, |rest|);
      assert lo + 6 == 6 * k && hi + 6 == Min(6 * k + 6, |s|);
      assert lo < hi <= |rest|;
      assert forall t :: lo <= t < hi ==> rest[t] == s[t + 6];
      assert rest[lo..hi] == s[lo + 6..hi + 6];
    }
  }

  /** Concatenating the chunks in order gives the input back. */
  lemma {:induction false} FlattenChunks<T>(s: seq<T>, n: nat)
    requires n > 0
    ensures Flatten(Chunks(s, n)) == s
    decreases |s|
  {
    if s != [] {
      var m := Min(n, |s|);
      FlattenChunks(s[m..], n);
      assert s[..m] + s[m..] == s;
    }
  }

  // --------------------------------------------------------------- table

  /** Cell `j` of record `k` is column `j` paired with cell `6 * k + j` of the input. */
  lemma TableCell(cells: seq<string>, k: nat, j: nat)
    requires k < |TransformTable(cells, 6)| && j < |TransformTable(cells, 6)[k]|
    ensures j < 6 && 6 * k + j < |cells|
    ensures TransformTable(cells, 6)[k][j] == (Columns[j], cells[6 * k + j])
  {
    ChunkAt(cells, k);
  }

  /** The table has `ceil(n / 6)` records; the trailing partial group is kept. */
  lemma TableCount(cells: seq<string>)
    ensures |TransformTable(cells, 6)| == (|cells| + 5) / 6
  {
    ChunkCount(cells);
  }

  /**
   * Every record but the last has the six keys in declared order; the last
   * has the first `n % 6` keys when `n` is not a multiple of 6, and all six
   * when it is.
   */
  lemma TableKeys(cells: seq<string>, k: nat)
    requires k < |TransformTable(cells, 6)|
    ensures k < |TransformTable(cells, 6)| - 1 || |cells| % 6 == 0 ==> KeysOf(TransformTable(cells, 6)[k]) == Columns
    ensures k == |TransformTable(cells, 6)| - 1 && |cells| % 6 != 0 ==>
              KeysOf(TransformTable(cells, 6)[k]) == Columns[..|cells| % 6]
  {
    var t := TransformTable(cells, 6);
    ChunkAt(cells, k);
    ChunkCount(cells);
    var size := Min(6 * k + 6, |cells|) - 6 * k;
    assert |t[k]| == size;
    assert KeysOf(t[k]) == Columns[..size];
  }

  /** For a list of `6 * m` cells there are exactly `m` records, each with the six keys in order. */
  lemma TableOfFullRows(cells: seq<string>, m: nat)
    requires |cells| == 6 * m
    ensures |TransformTable(cells, 6)| == m
    ensures forall k :: 0 <= k < m ==> KeysOf(TransformTable(cells, 6)[k]) == Columns
  {
    TableCount(cells);
    forall k | 0 <= k < m ensures KeysOf(TransformTable(cells, 6)[k]) == Columns {
      TableKeys(cells, k);
    }
  }

  /** Reading the values of the records in order gives back the input list. */
  lemma TableValues(cells: seq<string>)
    ensures AllValues(TransformTable(cells, 6)) == cells
  {
    var t := TransformTable(cells, 6);
    forall k | 0 <= k < |t| ensures ValuesOf(t[k]) == Chunks(cells, 6)[k] {
      ChunkAt(cells, k);
    }
    AllValuesPointwise(t, Chunks(cells, 6));
    FlattenChunks(cells, 6);
  }

  lemma {:induction false} AllValuesPointwise(t: seq<Actuacion>, cs: seq<seq<string>>)
    requires |t| == |cs| && forall k :: 0 <= k < |t| ==> ValuesOf(t[k]) == cs[k]
    ensures AllValues(t) == Flatten(cs)
  {
    if t != [] {
      AllValuesPointwise(t[1..], cs[1..]);
    }
  }
}
