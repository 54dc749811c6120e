/**
 * `get_options` (scraping.py:110-117): the options of a `<select>` control,
 * placeholder excluded, as a Python dict from visible text (the key) to value.
 *
 * A Python dict iterates in the order its keys were first inserted, and an
 * assignment to a key already present replaces the value in place. The dict
 * is therefore a sequence of entries with distinct labels.
 */
module Options {
  import opened Wrappers

  /** One `<option>` element: its visible text and its `value` attribute. */
  datatype SelectOption = SelectOption(text: string, value: string)

  /** One key/value pair of an insertion-ordered dict. */
  datatype Entry = Entry(key: string, value: string)

  type Dict = seq<Entry>

  function Keys(d: Dict): seq<string>
  {
    seq(|d|, i requires 0 <= i < |d| => d[i].key)
  }

  predicate Distinct(ls: seq<string>)
  {
    forall i, j :: 0 <= i < j < |ls| ==> ls[i] != ls[j]
  }

  /** `d[key]` on a Python dict. */
  function Get(d: Dict, key: string): Option<string>
  {
    if d == [] then None
    else if d[0].key == key then Some(d[0].value)
    else Get(d[1..], key)
  }

  /**
   * `d[key] = value` on a Python dict: a present key keeps its position
   * and takes the new value, a new key goes last.
   */
  function Put(d: Dict, key: string, value: string): (r: Dict)
    ensures key in Keys(d) ==> Keys(r) == Keys(d)
    ensures key !in Keys(d) ==> Keys(r) == Keys(d) + [key]
    ensures forall k :: Get(r, k) == if k == key then Some(value) else Get(d, k)
  {
    if d == [] then [Entry(key, value)]
    else if d[0].key == key then
      var r := [Entry(key, value)] + d[1..];
      assert Keys(d)[0] == key;
      assert Keys(r) == Keys(d);
      assert r[1..] == d[1..];
      r
    else
      var rest := Put(d[1..], key, value);
      var r := [d[0]] + rest;
      assert Keys(d) == [d[0].key] + Keys(d[1..]);
      assert Keys(r) == [d[0].key] + Keys(rest);
      assert r[0] == d[0] && r[1..] == rest;
      r
  }

  /** The dict comprehension `{o.text: o.value for o in opts}`, one insertion per option in page order. */
  function DictOf(opts: seq<SelectOption>): (r: Dict)
    ensures |r| <= |opts|
    ensures Distinct(Keys(r))
  {
    if opts == [] then []
    else
      var n := |opts| - 1;
      Put(DictOf(opts[..n]), opts[n].text, opts[n].value)
  }

  /** `get_options`: the comprehension over `options[1:]`, which skips the placeholder option. */
  function GetOptions(options: seq<SelectOption>): (r: Dict)
    ensures options != [] ==> |r| < |options|
    ensures Distinct(Keys(r))
  {
    if options == [] then [] else DictOf(options[1..])
  }

  // ------------------------------------------------------ specification

  /** The value of the last option whose text is `key`, if any. */
  function LastValue(opts: seq<SelectOption>, key: string): Option<string>
  {
    if opts == [] then None
    else if opts[|opts| - 1].text == key then Some(opts[|opts| - 1].value)
    else LastValue(opts[..|opts| - 1], key)
  }

  /** `p` is the position of the first option whose text is `key`. */
  predicate FirstAt(opts: seq<SelectOption>, key: string, p: nat)
  {
    p < |opts| && opts[p].text == key && forall q :: 0 <= q < p ==> opts[q].text != key
  }

  /** Looking a key up in the comprehension gives the value of its last occurrence. */
  lemma {:induction false} DictOfGet(opts: seq<SelectOption>, key: string)
    ensures Get(DictOf(opts), key) == LastValue(opts, key)
  {
    if opts != [] {
      DictOfGet(opts[..|opts| - 1], key);
    }
  }

  /** The keys of the comprehension are exactly the texts of the options, each once. */
  lemma {:induction false} DictOfLabels(opts: seq<SelectOption>)
    ensures Distinct(Keys(DictOf(opts)))
    ensures forall k :: k in Keys(DictOf(opts)) <==> exists q :: 0 <= q < |opts| && opts[q].text == k
  {
    if opts != [] {
      var n := |opts| - 1;
      DictOfLabels(opts[..n]);
      forall k ensures k in Keys(DictOf(opts)) <==> exists q :: 0 <= q < |opts| && opts[q].text == k {
        if k != opts[n].text && exists q :: 0 <= q < |opts| && opts[q].text == k {
          var q :| 0 <= q < |opts| && opts[q].text == k;
          assert opts[..n][q].text == k;
        }
      }
    }
  }

  /** The keys of the comprehension come in the order of their first occurrence on the page. */
  lemma DictOfOrder(opts: seq<SelectOption>, i: nat, j: nat, p: nat, q: nat)
    requires i < j < |DictOf(opts)|
    requires FirstAt(opts, DictOf(opts)[i].key, p) && FirstAt(opts, DictOf(opts)[j].key, q)
    ensures p < q
  {
    KeysFirstKeys(opts);
    assert Keys(DictOf(opts))[i] == DictOf(opts)[i].key;
    assert Keys(DictOf(opts))[j] == DictOf(opts)[j].key;
    FirstKeysOrder(opts, i, j, p, q);
  }

  /** The distinct option texts, in the order of their first occurrence. */
  function FirstKeys(opts: seq<SelectOption>): seq<string>
  {
    if opts == [] then []
    else
      var n := |opts| - 1;
      var prev := FirstKeys(opts[..n]);
      if opts[n].text in prev then prev else prev + [opts[n].text]
  }

  /** The comprehension's keys are the option texts in first-occurrence order. */
  lemma {:induction false} KeysFirstKeys(opts: seq<SelectOption>)
    ensures Keys(DictOf(opts)) == FirstKeys(opts)
  {
    if opts != [] {
      KeysFirstKeys(opts[..|opts| - 1]);
    }
  }

  lemma {:induction false} FirstKeysOrder(opts: seq<SelectOption>, i: nat, j: nat, p: nat, q: nat)
    requires i < j < |FirstKeys(opts)|
    requires FirstAt(opts, FirstKeys(opts)[i], p) && FirstAt(opts, FirstKeys(opts)[j], q)
    ensures p < q
    decreases |opts|
  {
    var n := |opts| - 1;
    var prev := FirstKeys(opts[..n]);
    var ki, kj := FirstKeys(opts)[i], FirstKeys(opts)[j];
    assert ki == prev[i];
    FirstAtBefore(opts, ki, p);
    if j < |prev| {
      assert kj == prev[j];
      FirstAtBefore(opts, kj, q);
      FirstKeysOrder(opts[..n], i, j, p, q);
    } else {
      // the last option brought a new key
      assert kj == opts[n].text && kj !in prev;
      NewKeyLast(opts, q);
    }
  }

  /** Every key listed by `FirstKeys` is the text of some option. */
  lemma {:induction false} FirstKeysOccur(opts: seq<SelectOption>, k: string)
    requires k in FirstKeys(opts)
    ensures exists q :: 0 <= q < |opts| && opts[q].text == k
  {
    var n := |opts| - 1;
    if k in FirstKeys(opts[..n]) {
      FirstKeysOccur(opts[..n], k);
      var q :| 0 <= q < n && opts[..n][q].text == k;
      assert opts[q].text == k;
    } else {
      assert opts[n].text == k;
    }
  }

  /** Every option's text is listed by `FirstKeys`. */
  lemma {:induction false} FirstKeysCover(opts: seq<SelectOption>, q: nat)
    requires q < |opts|
    ensures opts[q].text in FirstKeys(opts)
  {
    var n := |opts| - 1;
    if q < n {
      assert opts[..n][q] == opts[q];
      FirstKeysCover(opts[..n], q);
    }
  }

  /** A key already listed before the last option is first met among the earlier options. */
  lemma FirstAtBefore(opts: seq<SelectOption>, key: string, p: nat)
    requires opts != [] && key in FirstKeys(opts[..|opts| - 1]) && FirstAt(opts, key, p)
    ensures p < |opts| - 1 && FirstAt(opts[..|opts| - 1], key, p)
  {
    var n := |opts| - 1;
    FirstKeysOccur(opts[..n], key);
    var r :| 0 <= r < n && opts[..n][r].text == key;
    assert opts[r].text == key;
  }

  /** A key the last option adds is first met at the last option. */
  lemma NewKeyLast(opts: seq<SelectOption>, q: nat)
    requires opts != [] && opts[|opts| - 1].text !in FirstKeys(opts[..|opts| - 1])
    requires FirstAt(opts, opts[|opts| - 1].text, q)
    ensures q == |opts| - 1
  {
    var n := |opts| - 1;
    if q < n {
      assert opts[..n][q].text == opts[n].text;
      FirstKeysCover(opts[..n], q);
    }
  }

  /**
   * What `get_options` returns: every key is the text of some option after
   * the placeholder, each such text is a key exactly once, and its value is
   * the value of the text's last occurrence.
   */
  lemma GetOptionsSpec(options: seq<SelectOption>, key: string)
    ensures Distinct(Keys(GetOptions(options)))
    ensures key in Keys(GetOptions(options)) <==> exists q :: 1 <= q < |options| && options[q].text == key
    ensures Get(GetOptions(options), key) == if options == [] then None else LastValue(options[1..], key)
  {
    if options != [] {
      DictOfLabels(options[1..]);
      DictOfGet(options[1..], key);
      if exists q :: 1 <= q < |options| && options[q].text == key {
        var q :| 1 <= q < |options| && options[q].text == key;
        assert options[1..][q - 1].text == key;
      }
      if exists q :: 0 <= q < |options[1..]| && options[1..][q].text == key {
        var q :| 0 <= q < |options[1..]| && options[1..][q].text == key;
        assert options[q + 1].text == key;
      }
    }
  }

  /** The placeholder is never read: any first option gives the same dict. */
  lemma {:induction false} GetOptionsIgnoresPlaceholder(options: seq<SelectOption>, placeholder: SelectOption)
    requires options != []
    ensures GetOptions([placeholder] + options[1..]) == GetOptions(options)
  {
    assert ([placeholder] + options[1..])[1..] == options[1..];
  }
}
