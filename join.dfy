// The keyed data join that decides, on every render, which drawn elements
// are new, which stay and which go. Elements are matched by key only.

module KeyedJoin {

  /** The three selections a keyed join splits elements into. */
  datatype Join = Join(entering: set<nat>, updating: set<nat>, exiting: set<nat>)

  /** Joins the keys already on screen (`previous`) with the keys of the data
      now bound (`current`). */
  function Diff(previous: set<nat>, current: set<nat>): (j: Join)
    ensures j.entering + j.updating == current
    ensures j.updating + j.exiting == previous
    ensures j.entering !! previous && j.exiting !! current
    ensures j.entering !! j.updating && j.updating !! j.exiting && j.entering !! j.exiting
  {
    Join(current - previous, current * previous, previous - current)
  }

  /** The contract of `Diff` pins the join down: any split of the two key
      sets that covers them and keeps new keys and gone keys apart is the
      one `Diff` returns. */
  lemma {:induction false} DiffUnique(previous: set<nat>, current: set<nat>, j: Join)
    requires j.entering + j.updating == current
    requires j.updating + j.exiting == previous
    requires j.entering !! previous && j.exiting !! current
    ensures j == Diff(previous, current)
  {
    var d := Diff(previous, current);
    assert j.entering == d.entering by {
      forall k | k in j.entering ensures k in d.entering { }
      forall k | k in d.entering ensures k in j.entering { }
    }
    assert j.updating == d.updating by {
      forall k | k in j.updating ensures k in d.updating { }
      forall k | k in d.updating ensures k in j.updating { }
    }
    assert j.exiting == d.exiting by {
      forall k | k in j.exiting ensures k in d.exiting { }
      forall k | k in d.exiting ensures k in j.exiting { }
    }
  }

  /** Joining a key set with itself moves nothing: a pass that changes no
      visibility enters and removes no element. */
  lemma {:induction false} DiffSame(keys: set<nat>)
    ensures Diff(keys, keys) == Join({}, keys, {})
  {
    DiffUnique(keys, keys, Join({}, keys, {}));
  }

  /** Joining against an empty drawing enters every key and updates and
      removes none: the first render draws everything anew. */
  lemma {:induction false} DiffFromEmpty(keys: set<nat>)
    ensures Diff({}, keys) == Join(keys, {}, {})
  {
    DiffUnique({}, keys, Join(keys, {}, {}));
  }

  /** Joining in two steps and back restores the first key set's view: the
      keys that left in the first step are exactly those that come back in
      the second. */
  lemma {:induction false} DiffBack(a: set<nat>, b: set<nat>)
    ensures Diff(b, a).entering == Diff(a, b).exiting
    ensures Diff(b, a).exiting == Diff(a, b).entering
    ensures Diff(b, a).updating == Diff(a, b).updating
  {
    var ab, ba := Diff(a, b), Diff(b, a);
    DiffUnique(b, a, Join(ab.exiting, ab.updating, ab.entering));
  }

  /** The distinct keys a sequence of bound data carries. */
  function KeySet<K>(keys: seq<K>): set<K>
  {
    set k | k in keys
  }

  /** No entry of `s` occurs twice. */
  ghost predicate Distinct<T>(s: seq<T>)
  {
    forall j, k :: 0 <= j < k < |s| ==> s[j] != s[k]
  }

  /** Without repeated keys, there are as many keys as data. */
  lemma {:induction false} DistinctCount<K>(keys: seq<K>)
    requires Distinct(keys)
    ensures |KeySet(keys)| == |keys|
  {
    if keys != [] {
      DistinctCount(keys[1..]);
      assert KeySet(keys) == KeySet(keys[1..]) + {keys[0]} by {
        forall k | k in keys ensures k in KeySet(keys[1..]) + {keys[0]} {
          var j :| 0 <= j < |keys| && keys[j] == k;
          if j > 0 { assert keys[1..][j - 1] == k; }
        }
      }
      assert keys[0] !in KeySet(keys[1..]) by {
        forall j | 0 <= j < |keys[1..]| ensures keys[1..][j] != keys[0] { assert keys[1..][j] == keys[j + 1]; }
      }
    }
  }
}
