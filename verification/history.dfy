/** The bounded query history of lib.rs: a new entry goes to the front and
    the list is cut back to `Capacity` entries (lib.rs:458-462 and
    491-495); deleting removes every entry with a given id (lib.rs:552). */
module History {
  import opened Records

  /** The most entries a query leaves in the history. */
  const Capacity: nat := 100

  /** `s` cut back to its first `Capacity` entries (`Vec::truncate`). */
  function Newest(s: seq<HistoryRecord>): (r: seq<HistoryRecord>)
    ensures |r| == if |s| <= Capacity then |s| else Capacity
    ensures r <= s
  {
    if |s| > Capacity then s[..Capacity] else s
  }

  /** `insert(0, e)` followed by `truncate(100)`: the new entry first, then
      the old entries in order, dropping the oldest beyond the capacity. */
  function Push(h: seq<HistoryRecord>, e: HistoryRecord): (r: seq<HistoryRecord>)
    ensures |r| == if |h| + 1 <= Capacity then |h| + 1 else Capacity
    ensures r[0] == e
    ensures forall i :: 1 <= i < |r| ==> r[i] == h[i - 1]
  {
    Newest([e] + h)
  }

  /** How many entries of `h` carry the id `id`. */
  function CountWithId(h: seq<HistoryRecord>, id: string): (n: nat)
    ensures n <= |h|
  {
    if |h| == 0 then 0
    else (if h[0].id == id then 1 else 0) + CountWithId(h[1..], id)
  }

  /** `retain(|item| item.id != id)`: drops exactly the entries with that
      id, so an unknown id leaves the history as it was. */
  function Delete(h: seq<HistoryRecord>, id: string): (r: seq<HistoryRecord>)
    ensures forall e :: e in r <==> e in h && e.id != id
    ensures |r| + CountWithId(h, id) == |h|
  {
    if |h| == 0 then []
    else if h[0].id == id then Delete(h[1..], id)
    else [h[0]] + Delete(h[1..], id)
  }

  /** Deleting distributes over concatenation; together with the one-entry
      case this says that the survivors keep their relative order. */
  lemma {:induction false} DeleteAppend(a: seq<HistoryRecord>, b: seq<HistoryRecord>, id: string)
    ensures Delete(a + b, id) == Delete(a, id) + Delete(b, id)
    decreases |a|
  {
    if |a| == 0 {
      assert a + b == b;
    } else {
      assert (a + b)[1..] == a[1..] + b;
      DeleteAppend(a[1..], b, id);
    }
  }

  /** The one-entry case of `Delete`. */
  lemma DeleteOne(e: HistoryRecord, id: string)
    ensures Delete([e], id) == if e.id == id then [] else [e]
  {
    assert [e][1..] == [];
  }

  /** A history with no entry of that id is left exactly as it was. */
  lemma {:induction false} DeleteAbsent(h: seq<HistoryRecord>, id: string)
    requires forall i :: 0 <= i < |h| ==> h[i].id != id
    ensures Delete(h, id) == h
    decreases |h|
  {
    if |h| > 0 {
      DeleteAbsent(h[1..], id);
    }
  }

  /** Deleting the same id twice is deleting it once. */
  lemma DeleteIdempotent(h: seq<HistoryRecord>, id: string)
    ensures Delete(Delete(h, id), id) == Delete(h, id)
  {
    var r := Delete(h, id);
    forall i | 0 <= i < |r| ensures r[i].id != id {
      assert r[i] in r;
    }
    DeleteAbsent(r, id);
  }

  function Reverse(s: seq<HistoryRecord>): (r: seq<HistoryRecord>)
    ensures |r| == |s|
    ensures forall i :: 0 <= i < |s| ==> r[i] == s[|s| - 1 - i]
  {
    if |s| == 0 then [] else Reverse(s[1..]) + [s[0]]
  }

  /** Push the entries of `es` one after another, `es[0]` first. */
  function PushAll(h: seq<HistoryRecord>, es: seq<HistoryRecord>): seq<HistoryRecord>
    decreases |es|
  {
    if |es| == 0 then h else PushAll(Push(h, es[0]), es[1..])
  }

  lemma NewestOfNewest(a: seq<HistoryRecord>, b: seq<HistoryRecord>)
    ensures Newest(a + Newest(b)) == Newest(a + b)
  {
    var l := Newest(a + Newest(b));
    var r := Newest(a + b);
    assert |l| == |r|;
    forall i | 0 <= i < |l| ensures l[i] == r[i] {
      if i >= |a| {
        assert l[i] == Newest(b)[i - |a|];
      }
    }
  }

  lemma ReverseFirst(es: seq<HistoryRecord>, h: seq<HistoryRecord>)
    requires |es| > 0
    ensures Reverse(es[1..]) + ([es[0]] + h) == Reverse(es) + h
  {
    var r := Reverse(es[1..]);
    var x := es[0];
    calc {
      Reverse(es) + h;
      (r + [x]) + h;
      r + ([x] + h);
    }
  }

  /** After a run of queries the history holds the newest entries first,
      at most `Capacity` of them, followed by what survives of the old
      history. */
  lemma {:induction false} PushAllKeepsNewest(h: seq<HistoryRecord>, es: seq<HistoryRecord>)
    requires |h| <= Capacity
    ensures PushAll(h, es) == Newest(Reverse(es) + h)
    decreases |es|
  {
    if |es| == 0 {
      assert Reverse(es) + h == h;
    } else {
      var e := es[0];
      PushAllKeepsNewest(Push(h, e), es[1..]);
      NewestOfNewest(Reverse(es[1..]), [e] + h);
      ReverseFirst(es, h);
    }
  }

  /** Starting from an empty history, once `Capacity` or more queries have
      been made only the newest `Capacity` remain, newest first: every
      older entry has been evicted. */
  lemma Eviction(es: seq<HistoryRecord>)
    requires |es| >= Capacity
    ensures |PushAll([], es)| == Capacity
    ensures PushAll([], es) == Reverse(es[|es| - Capacity..])
  {
    PushAllKeepsNewest([], es);
    assert Reverse(es) + [] == Reverse(es);
    var tail := es[|es| - Capacity..];
    var r := PushAll([], es);
    forall i | 0 <= i < Capacity ensures r[i] == Reverse(tail)[i] {
      assert r[i] == Reverse(es)[i];
    }
  }
}
