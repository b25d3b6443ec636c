/**
 * The counting half of `get_log_matching`: every true entry of `log_content`
 * is reduced to the tuple of its values for the unicity keys, and each
 * distinct tuple is counted in an insertion-ordered dictionary.
 */
module Aggregation {
  import opened Wrappers
  import opened OrderedDict
  import opened LogLine

  /** A unicity tuple: one value per unicity key, None where the record has none. */
  type Tuple = seq<Option<string>>

  /** `log_line_dict.get(unique_key, None)` */
  function Lookup(r: Record, key: string): Option<string> {
    if key in r then r[key] else None
  }

  /**
   * The tuple of one record for the unicity keys: one cell per key, in key
   * order, a field the record lacks giving None instead of being skipped.
   */
  function SelectTuple(r: Record, keys: seq<string>): (t: Tuple)
    ensures |t| == |keys|
    ensures forall j :: 0 <= j < |keys| && keys[j] in r ==> t[j] == r[keys[j]]
    ensures forall j :: 0 <= j < |keys| && keys[j] !in r ==> t[j] == None
  {
    if keys == [] then []
    else SelectTuple(r, keys[..|keys| - 1]) + [Lookup(r, keys[|keys| - 1])]
  }

  /** The number of true entries (the parsed lines) in `content`. */
  function MatchedCount(content: seq<Option<Record>>): nat {
    if content == [] then 0
    else MatchedCount(content[..|content| - 1]) + if Truthy(content[|content| - 1]) then 1 else 0
  }

  /** The tuples of the true entries of `content`, in order; false entries are skipped. */
  function Selected(content: seq<Option<Record>>, keys: seq<string>): (s: seq<Tuple>)
    ensures |s| == MatchedCount(content)
    ensures forall t :: t in s ==> |t| == |keys|
  {
    if content == [] then []
    else
      var rest, e := Selected(content[..|content| - 1], keys), content[|content| - 1];
      if Truthy(e) then rest + [SelectTuple(e.value, keys)] else rest
  }

  /**
   * One step of the counting loop: a tuple whose `get(…, False)` is false
   * is stored with 1, any other has its count raised by one.
   */
  function Increment(d: Dict<Tuple, int>, t: Tuple): (r: Dict<Tuple, int>)
    requires Valid(d)
    ensures Valid(r)
  {
    if Get(d, t, 0) == 0 then Set(d, t, 1) else Set(d, t, d.items[t] + 1)
  }

  /** The dictionary `unicity_dict` after the counting loop has visited all of `content`. */
  function Tally(content: seq<Option<Record>>, keys: seq<string>): (d: Dict<Tuple, int>)
    ensures Valid(d)
  {
    if content == [] then Dict([], map[])
    else
      var d, e := Tally(content[..|content| - 1], keys), content[|content| - 1];
      if Truthy(e) then Increment(d, SelectTuple(e.value, keys)) else d
  }

  /**
   * The dictionary's keys are exactly the distinct tuples of the matched
   * records, and each count is the number of records with that tuple, hence
   * at least 1.
   */
  lemma {:induction false} TallyCounts(content: seq<Option<Record>>, keys: seq<string>)
    ensures forall t :: t in Tally(content, keys).items <==> t in Selected(content, keys)
    ensures forall t :: t in Tally(content, keys).items ==>
      Tally(content, keys).items[t] == multiset(Selected(content, keys))[t] >= 1
  {
    if content != [] {
      var pre, e := content[..|content| - 1], content[|content| - 1];
      TallyCounts(pre, keys);
      if Truthy(e) {
        var x := SelectTuple(e.value, keys);
        assert Selected(content, keys) == Selected(pre, keys) + [x];
        IncrementCounts(Tally(pre, keys), Selected(pre, keys), x);
      }
    }
  }

  /** Counting one more tuple keeps the dictionary equal to the multiset of the tuples seen. */
  lemma IncrementCounts(d: Dict<Tuple, int>, s: seq<Tuple>, x: Tuple)
    requires Valid(d)
    requires forall t :: t in d.items <==> t in s
    requires forall t :: t in d.items ==> d.items[t] == multiset(s)[t] >= 1
    ensures forall t :: t in Increment(d, x).items <==> t in s + [x]
    ensures forall t :: t in Increment(d, x).items ==> Increment(d, x).items[t] == multiset(s + [x])[t] >= 1
  {
    assert multiset(s + [x]) == multiset(s) + multiset{x};
  }

  /** The number of matched records every tuple accounts for. */
  lemma {:induction false} TallySum(content: seq<Option<Record>>, keys: seq<string>)
    ensures SumOver(Tally(content, keys).keys, Tally(content, keys).items) == MatchedCount(content)
  {
    if content != [] {
      var pre, e := content[..|content| - 1], content[|content| - 1];
      TallySum(pre, keys);
      if Truthy(e) {
        var d, x := Tally(pre, keys), SelectTuple(e.value, keys);
        if x in d.items {
          TallyCounts(pre, keys);
          SumOverBump(d.keys, d.items, x);
        } else {
          SumOverInsert(d.keys, d.items, x, 1);
        }
      }
    }
  }

  /** Index of the first occurrence of `x` in `s` (|s| when absent). */
  function FirstIndex(s: seq<Tuple>, x: Tuple): nat {
    if s == [] then 0 else if s[0] == x then 0 else 1 + FirstIndex(s[1..], x)
  }

  lemma {:induction false} FirstIndexAppend(s: seq<Tuple>, y: Tuple, x: Tuple)
    ensures x in s ==> FirstIndex(s + [y], x) == FirstIndex(s, x) < |s|
    ensures x !in s ==> FirstIndex(s, x) == |s|
  {
    if s != [] {
      assert (s + [y])[1..] == s[1..] + [y];
      FirstIndexAppend(s[1..], y, x);
    }
  }

  /**
   * The dictionary iterates its tuples in the order of their first occurrence
   * among the matched records.
   */
  lemma {:induction false} TallyFirstOccurrenceOrder(content: seq<Option<Record>>, keys: seq<string>)
    ensures forall i, j :: 0 <= i < j < |Tally(content, keys).keys| ==>
      FirstIndex(Selected(content, keys), Tally(content, keys).keys[i])
        < FirstIndex(Selected(content, keys), Tally(content, keys).keys[j])
  {
    if content != [] {
      var pre, e := content[..|content| - 1], content[|content| - 1];
      TallyFirstOccurrenceOrder(pre, keys);
      if Truthy(e) {
        var d, s, x := Tally(pre, keys), Selected(pre, keys), SelectTuple(e.value, keys);
        var d' := Tally(content, keys);
        assert Selected(content, keys) == s + [x];
        TallyCounts(pre, keys);
        forall t | t in d.items
          ensures FirstIndex(s + [x], t) == FirstIndex(s, t) < |s|
        {
          FirstIndexAppend(s, x, t);
        }
        if x !in d.items {
          FirstIndexAppend(s, x, x);
          assert FirstIndex(s + [x], x) == |s| by {
            FirstIndexFound(s, x);
          }
          assert d'.keys == d.keys + [x];
        } else {
          assert d'.keys == d.keys;
        }
      }
    }
  }

  lemma {:induction false} FirstIndexFound(s: seq<Tuple>, x: Tuple)
    requires x !in s
    ensures FirstIndex(s + [x], x) == |s|
  {
    if s != [] {
      assert (s + [x])[1..] == s[1..] + [x];
      FirstIndexFound(s[1..], x);
    }
  }

  /** With no unicity keys, all matched records fall into the single empty tuple. */
  lemma EmptyKeysSingleBucket(content: seq<Option<Record>>)
    ensures MatchedCount(content) == 0 ==> Tally(content, []).keys == []
    ensures MatchedCount(content) > 0 ==>
      Tally(content, []).keys == [[]] && Tally(content, []).items == map[[] := MatchedCount(content)]
  {
    var d, s := Tally(content, []), Selected(content, []);
    TallyCounts(content, []);
    TallySum(content, []);
    forall i | 0 <= i < |d.keys| ensures d.keys[i] == [] {
      assert d.keys[i] in s;
    }
    if MatchedCount(content) > 0 {
      assert s[0] == [];
      assert [] in d.keys;
      assert d.keys == [[]];
      assert SumOver(d.keys, d.items) == d.items[[]];
      assert d.items.Keys == {[]};
    }
  }
}
