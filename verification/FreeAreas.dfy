/**
 kern_free_vm (kern/mm.c): the list of free intervals of the kernel's page heap, kept sorted and
 coalesced by get_page_from_heap and release_page_from_heap.
 */
module FreeAreas {
  import opened Layout


  /** [start, end) */
  datatype Area = Area(start: nat, end: nat)

  predicate IsPage(v: int) {
    KERN_PG_HEAP <= v < KERN_PG_HEAP_LIM && v % PAGE == 0
  }

  /** Non-empty, inside the page heap, ascending, and never touching. */
  predicate Ordered(areas: seq<Area>) {
    && (forall i :: 0 <= i < |areas| ==> KERN_PG_HEAP <= areas[i].start < areas[i].end <= KERN_PG_HEAP_LIM)
    && (forall i, j :: 0 <= i < j < |areas| ==> areas[i].end < areas[j].start)
  }

  predicate Aligned(areas: seq<Area>) {
    forall i :: 0 <= i < |areas| ==> areas[i].start % PAGE == 0 && areas[i].end % PAGE == 0
  }

  predicate IsFree(areas: seq<Area>, x: int) {
    exists i :: 0 <= i < |areas| && areas[i].start <= x < areas[i].end
  }

  predicate InPage(x: int, v: nat) {
    v <= x < v + PAGE
  }

  const Initial := [Area(KERN_PG_HEAP, KERN_PG_HEAP_LIM)]

  // ---- get_page_from_heap

  /** The list after its lowest page has been taken. */
  function Taken(areas: seq<Area>): seq<Area>
    requires areas != []
  {
    if areas[0].start + PAGE == areas[0].end then areas[1..]
    else areas[0 := Area(areas[0].start + PAGE, areas[0].end)]
  }

  /** The lowest free page is taken, and nothing else. */
  lemma {:induction false} TakenEffect(areas: seq<Area>)
    requires Ordered(areas) && Aligned(areas) && areas != []
    ensures Ordered(Taken(areas)) && Aligned(Taken(areas))
    ensures var v := areas[0].start;
            && IsPage(v)
            && (forall x :: InPage(x, v) ==> IsFree(areas, x))
            && (forall x :: IsFree(areas, x) ==> v <= x)
            && (forall x :: IsFree(Taken(areas), x) <==> IsFree(areas, x) && !InPage(x, v))
  {
    var v, r := areas[0].start, Taken(areas);
    assert areas[0].end >= v + PAGE;
    forall x ensures IsFree(r, x) <==> IsFree(areas, x) && !InPage(x, v) {
      TakenFree(areas, x);
    }
    forall x | InPage(x, v) ensures IsFree(areas, x) {
      assert areas[0].start <= x < areas[0].end;
    }
  }

  lemma {:induction false} TakenFree(areas: seq<Area>, x: int)
    requires Ordered(areas) && areas != [] && areas[0].end >= areas[0].start + PAGE
    ensures IsFree(Taken(areas), x) <==> IsFree(areas, x) && !InPage(x, areas[0].start)
  {
    var r := Taken(areas);
    var d := if |r| < |areas| then 1 else 0;
    if IsFree(r, x) {
      var i :| 0 <= i < |r| && r[i].start <= x < r[i].end;
      assert areas[i + d].start <= x < areas[i + d].end;
    }
    if IsFree(areas, x) && !InPage(x, areas[0].start) {
      var i :| 0 <= i < |areas| && areas[i].start <= x < areas[i].end;
      assert r[i - d].start <= x < r[i - d].end;
    }
  }

  // ---- release_page_from_heap

  /** Index of the first area starting above v; |areas| when the search runs into the list head. */
  function Above(areas: seq<Area>, v: nat): (k: nat)
    ensures k <= |areas|
    ensures k < |areas| ==> areas[k].start > v
    ensures forall i :: 0 <= i < k ==> areas[i].start <= v
  {
    if areas == [] || areas[0].start > v then 0 else 1 + Above(areas[1..], v)
  }

  /**
   Touched: the code has written to the list head seen as an area, or unlinked it.
   Corrupted: the "corrupted linked list" panic.
   */
  datatype Outcome = Released(areas: seq<Area>) | Touched | Corrupted

  /** The list with areas lo..hi replaced by a. */
  function Splice(areas: seq<Area>, lo: nat, hi: nat, a: Area): seq<Area>
    requires lo <= hi <= |areas|
  {
    areas[..lo] + [a] + areas[hi..]
  }

  /**
   release_page_from_heap on the list; head is what the two words in front of the list head
   hold, which the code reads as an area when the search meets the head.
   */
  function Given(areas: seq<Area>, head: Area, v: nat): Outcome {
    var k := Above(areas, v);
    var next := if k < |areas| then areas[k] else head;
    var prev := if k > 0 then areas[k - 1] else head;
    if prev.end == v then
      if k == 0 then Touched
      else if v + PAGE == next.start then
        if k == |areas| then Touched else Released(Splice(areas, k - 1, k + 1, Area(prev.start, next.end)))
      else Released(Splice(areas, k - 1, k, Area(prev.start, v + PAGE)))
    else if next.start == v + PAGE then
      if k == |areas| then Touched else Released(Splice(areas, k, k + 1, Area(v, next.end)))
    else if next.start > v + PAGE then Released(Splice(areas, k, k, Area(v, v + PAGE)))
    else Corrupted
  }

  /**
   What makes the release correct, in terms of the search and of the words in front of the list head:
   a real area on the side that gets extended, and a head that looks as if it started far above v
   when it takes the part of the next area.
   */
  predicate HeadHarmless(areas: seq<Area>, head: Area, v: nat) {
    var k := Above(areas, v);
    && (k == 0 ==> head.end != v)
    && (k == |areas| ==> if k > 0 && areas[k - 1].end == v then head.start != v + PAGE else head.start > v + PAGE)
  }

  /** o is the list with v added: still ordered, and nothing else freed or lost. */
  ghost predicate Adds(areas: seq<Area>, v: nat, o: Outcome) {
    && o.Released? && Ordered(o.areas) && Aligned(o.areas)
    && forall x :: IsFree(o.areas, x) <==> IsFree(areas, x) || InPage(x, v)
  }

  /** The page v does not overlap the list: the areas before position k end at or before it, the others follow. */
  lemma {:induction false} AroundPage(areas: seq<Area>, v: nat)
    requires Ordered(areas) && Aligned(areas) && IsPage(v) && !IsFree(areas, v)
    ensures var k := Above(areas, v);
            && (k > 0 ==> areas[k - 1].end <= v)
            && (k < |areas| ==> areas[k].start >= v + PAGE)
  {
  }

  /** For every list, every page not in it, and whatever lies in front of the list head. */
  lemma {:induction false} GivenExact(areas: seq<Area>, head: Area, v: nat)
    requires Ordered(areas) && Aligned(areas) && IsPage(v) && !IsFree(areas, v)
    ensures Adds(areas, v, Given(areas, head, v)) <==> HeadHarmless(areas, head, v)
  {
    AroundPage(areas, v);
    if HeadHarmless(areas, head, v) {
      GivenAdds(areas, head, v);
    }
  }

  lemma {:induction false} GivenAdds(areas: seq<Area>, head: Area, v: nat)
    requires Ordered(areas) && Aligned(areas) && IsPage(v) && !IsFree(areas, v) && HeadHarmless(areas, head, v)
    ensures Adds(areas, v, Given(areas, head, v))
  {
    AroundPage(areas, v);
    var lo, hi, a := GivenIsSplice(areas, head, v);
    SpliceAdds(areas, lo, hi, a, v);
  }

  /** All four ways of adding a page replace at most two areas by one that covers them and the page. */
  lemma {:induction false} GivenIsSplice(areas: seq<Area>, head: Area, v: nat) returns (lo: nat, hi: nat, a: Area)
    requires Ordered(areas) && HeadHarmless(areas, head, v)
    requires var k := Above(areas, v);
             (k > 0 ==> areas[k - 1].end <= v) && (k < |areas| ==> areas[k].start >= v + PAGE)
    ensures lo <= hi <= |areas| && Covers(areas, lo, hi, a, v)
    ensures Given(areas, head, v) == Released(Splice(areas, lo, hi, a))
    ensures (lo > 0 ==> areas[lo - 1].end < a.start) && (hi < |areas| ==> a.end < areas[hi].start)
  {
    var k := Above(areas, v);
    if k > 0 && areas[k - 1].end == v {
      if k < |areas| && v + PAGE == areas[k].start {
        lo, hi, a := k - 1, k + 1, Area(areas[k - 1].start, areas[k].end);
      } else {
        lo, hi, a := k - 1, k, Area(areas[k - 1].start, v + PAGE);
      }
    } else if k < |areas| && areas[k].start == v + PAGE {
      lo, hi, a := k, k + 1, Area(v, areas[k].end);
    } else {
      lo, hi, a := k, k, Area(v, v + PAGE);
    }
  }

  /** a covers the areas lo..hi and the page v, and nothing more. */
  predicate Covers(areas: seq<Area>, lo: nat, hi: nat, a: Area, v: nat)
    requires lo <= hi <= |areas|
  {
    || (hi == lo && a == Area(v, v + PAGE))
    || (hi == lo + 1 && areas[lo].end == v && a == Area(areas[lo].start, v + PAGE))
    || (hi == lo + 1 && areas[lo].start == v + PAGE && a == Area(v, areas[lo].end))
    || (hi == lo + 2 && areas[lo].end == v && areas[lo + 1].start == v + PAGE &&
        a == Area(areas[lo].start, areas[lo + 1].end))
  }

  /** Splice, index by index. */
  predicate IsReplaced(areas: seq<Area>, lo: nat, hi: nat, a: Area, r: seq<Area>)
    requires lo <= hi <= |areas|
  {
    && |r| == |areas| - hi + lo + 1
    && (forall j :: 0 <= j < lo ==> r[j] == areas[j])
    && r[lo] == a
    && (forall j :: lo < j < |r| ==> r[j] == areas[j + hi - lo - 1])
  }

  lemma {:induction false} SpliceReplaces(areas: seq<Area>, lo: nat, hi: nat, a: Area)
    requires lo <= hi <= |areas|
    ensures IsReplaced(areas, lo, hi, a, Splice(areas, lo, hi, a))
  {
  }

  lemma {:induction false} SpliceAdds(areas: seq<Area>, lo: nat, hi: nat, a: Area, v: nat)
    requires Ordered(areas) && Aligned(areas) && IsPage(v) && lo <= hi <= |areas| && Covers(areas, lo, hi, a, v)
    requires lo > 0 ==> areas[lo - 1].end < a.start
    requires hi < |areas| ==> a.end < areas[hi].start
    ensures Adds(areas, v, Released(Splice(areas, lo, hi, a)))
  {
    var r := Splice(areas, lo, hi, a);
    SpliceReplaces(areas, lo, hi, a);
    ReplaceOrdered(areas, lo, hi, a, r);
    ReplaceAligned(areas, lo, hi, a, v, r);
    forall x ensures IsFree(r, x) <==> IsFree(areas, x) || InPage(x, v) {
      ReplaceFree(areas, lo, hi, a, v, x, r);
    }
  }

  lemma {:induction false} ReplaceOrdered(areas: seq<Area>, lo: nat, hi: nat, a: Area, r: seq<Area>)
    requires Ordered(areas) && lo <= hi <= |areas| && IsReplaced(areas, lo, hi, a, r)
    requires KERN_PG_HEAP <= a.start < a.end <= KERN_PG_HEAP_LIM
    requires lo > 0 ==> areas[lo - 1].end < a.start
    requires hi < |areas| ==> a.end < areas[hi].start
    ensures Ordered(r)
  {
    forall i, j | 0 <= i < j < |r| ensures r[i].end < r[j].start {
      if i == lo {
        assert hi == j + hi - lo - 1 || areas[hi].end < areas[j + hi - lo - 1].start;
      } else if j == lo {
        assert i == lo - 1 || areas[i].end < areas[lo - 1].start;
      }
    }
  }

  lemma {:induction false} ReplaceAligned(areas: seq<Area>, lo: nat, hi: nat, a: Area, v: nat, r: seq<Area>)
    requires Aligned(areas) && IsPage(v) && lo <= hi <= |areas| && Covers(areas, lo, hi, a, v)
    requires IsReplaced(areas, lo, hi, a, r)
    ensures Aligned(r)
  {
  }

  lemma {:induction false} ReplaceFree(areas: seq<Area>, lo: nat, hi: nat, a: Area, v: nat, x: int, r: seq<Area>)
    requires lo <= hi <= |areas| && Covers(areas, lo, hi, a, v) && IsReplaced(areas, lo, hi, a, r)
    requires forall i :: lo <= i < hi ==> areas[i].start < areas[i].end
    ensures IsFree(r, x) <==> IsFree(areas, x) || InPage(x, v)
  {
    if IsFree(r, x) && !InPage(x, v) {
      var j :| 0 <= j < |r| && r[j].start <= x < r[j].end;
      var i := if j < lo || (j == lo && x < v) then j else j + hi - lo - 1;
      assert areas[i].start <= x < areas[i].end;
    }
    if InPage(x, v) {
      assert r[lo].start <= x < r[lo].end;
    }
    if IsFree(areas, x) {
      StaysFree(areas, lo, hi, a, v, x, r);
    }
  }

  lemma {:induction false} StaysFree(areas: seq<Area>, lo: nat, hi: nat, a: Area, v: nat, x: int, r: seq<Area>)
    requires lo <= hi <= |areas| && Covers(areas, lo, hi, a, v) && IsReplaced(areas, lo, hi, a, r)
    requires forall i :: lo <= i < hi ==> areas[i].start < areas[i].end
    requires IsFree(areas, x)
    ensures IsFree(r, x)
  {
    var i :| 0 <= i < |areas| && areas[i].start <= x < areas[i].end;
    if i < lo {
      assert r[i] == areas[i];
    } else if i < hi {
      assert r[lo].start <= x < r[lo].end;
    } else {
      var j := i - (hi - lo - 1);
      assert r[j] == areas[i];
    }
  }

  // ---- runs

  /** Two pages that share a byte are the same page. */
  lemma SamePage(x: int, v: nat)
    requires IsPage(x) && IsPage(v) && InPage(x, v)
    ensures x == v
  {
  }

  /** The last free page of the heap is the one that must never be handed out. */
  predicate MoreThanOnePage(areas: seq<Area>) {
    |areas| > 1 || (|areas| == 1 && areas[0].end > areas[0].start + PAGE)
  }

  /** out: the pages handed out and not yet released. */
  datatype State = State(areas: seq<Area>, out: set<nat>)

  /** The free list and the pages handed out share the page heap between them. */
  ghost predicate Inv(s: State) {
    && Ordered(s.areas) && Aligned(s.areas)
    && s.areas != [] && s.areas[|s.areas| - 1].end == KERN_PG_HEAP_LIM
    && (forall v :: v in s.out ==> IsPage(v))
    && (forall x :: IsPage(x) ==> (IsFree(s.areas, x) <==> x !in s.out))
  }

  /** Head words that are never mistaken for an area ending at a page of the heap. */
  predicate HeadOutside(head: Area) {
    head.end < KERN_PG_HEAP || head.end >= KERN_PG_HEAP_LIM
  }

  datatype Op = Get | Release(v: nat)

  ghost predicate Step(head: Area, s: State, op: Op, s': State) {
    match op
    case Get => && MoreThanOnePage(s.areas)
                && s' == State(Taken(s.areas), s.out + {s.areas[0].start})
    case Release(v) => && v in s.out
                       && var o := Given(s.areas, head, v);
                          s' == State(if o.Released? then o.areas else [], s.out - {v})
  }

  lemma {:induction false} GetKeepsInv(s: State)
    requires Inv(s) && MoreThanOnePage(s.areas)
    ensures Inv(State(Taken(s.areas), s.out + {s.areas[0].start}))
    ensures var v := s.areas[0].start; v !in s.out && forall x :: IsPage(x) && x < v ==> x in s.out
  {
    var v := s.areas[0].start;
    TakenEffect(s.areas);
    forall x | IsPage(x) ensures IsFree(Taken(s.areas), x) <==> x !in s.out + {v} {
      if InPage(x, v) {
        SamePage(x, v);
      }
    }
    assert InPage(v, v);
  }

  /** Every handed-out page lies below the last area, so the search of a release ends at a real area. */
  lemma {:induction false} SearchStopsInside(s: State, v: nat)
    requires Inv(s) && v in s.out
    ensures Above(s.areas, v) < |s.areas| && v < s.areas[|s.areas| - 1].start
  {
    var l := s.areas[|s.areas| - 1];
    if l.start <= v {
      assert IsFree(s.areas, v);
    }
  }

  lemma {:induction false} ReleaseKeepsInv(head: Area, s: State, v: nat)
    requires Inv(s) && v in s.out && HeadOutside(head)
    ensures Given(s.areas, head, v).Released?
    ensures Inv(State(Given(s.areas, head, v).areas, s.out - {v}))
  {
    SearchStopsInside(s, v);
    GivenAdds(s.areas, head, v);
    AddsKeepsInv(s, v, Given(s.areas, head, v));
  }

  lemma {:induction false} AddsKeepsInv(s: State, v: nat, o: Outcome)
    requires Inv(s) && v in s.out && Adds(s.areas, v, o) && v < s.areas[|s.areas| - 1].start
    ensures Inv(State(o.areas, s.out - {v}))
  {
    forall x | IsPage(x) ensures IsFree(o.areas, x) <==> x !in s.out - {v} {
      if InPage(x, v) {
        SamePage(x, v);
      }
    }
    assert InPage(v, v);
    var l := |s.areas| - 1;
    assert s.areas[l].start <= KERN_PG_HEAP_LIM - PAGE < s.areas[l].end;
    EndsAtLimit(o.areas);
  }

  /** An ordered, aligned list that has the top page free ends at the limit. */
  lemma {:induction false} EndsAtLimit(areas: seq<Area>)
    requires Ordered(areas) && Aligned(areas) && IsFree(areas, KERN_PG_HEAP_LIM - PAGE)
    ensures areas != [] && areas[|areas| - 1].end == KERN_PG_HEAP_LIM
  {
    var i :| 0 <= i < |areas| && areas[i].start <= KERN_PG_HEAP_LIM - PAGE < areas[i].end;
    assert areas[i].end == KERN_PG_HEAP_LIM;
  }

  ghost predicate IsRun(head: Area, ss: seq<State>, ops: seq<Op>) {
    && |ss| == |ops| + 1
    && ss[0] == State(Initial, {})
    && forall k :: 0 <= k < |ops| ==> Step(head, ss[k], ops[k], ss[k + 1])
  }

  lemma {:induction false} InitialInv()
    ensures Inv(State(Initial, {}))
  {
    assert Initial[0] == Area(KERN_PG_HEAP, KERN_PG_HEAP_LIM);
    assert forall x :: IsPage(x) ==> Initial[0].start <= x < Initial[0].end;
  }

  /** Over every run that never hands out the last free page the list and the handed-out pages stay in step. */
  lemma {:induction false} RunInvariant(head: Area, ss: seq<State>, ops: seq<Op>, k: nat)
    requires IsRun(head, ss, ops) && HeadOutside(head) && k < |ss|
    ensures Inv(ss[k])
  {
    if k == 0 {
      InitialInv();
    } else {
      RunInvariant(head, ss, ops, k - 1);
      assert Step(head, ss[k - 1], ops[k - 1], ss[k]);
      match ops[k - 1]
      case Get => GetKeepsInv(ss[k - 1]);
      case Release(v) => ReleaseKeepsInv(head, ss[k - 1], v);
    }
  }

  /** In such runs a release always succeeds: no panic, no store to the list head. */
  lemma {:induction false} RunReleaseSucceeds(head: Area, ss: seq<State>, ops: seq<Op>, k: nat, v: nat)
    requires IsRun(head, ss, ops) && HeadOutside(head) && k < |ss| && v in ss[k].out
    ensures Given(ss[k].areas, head, v).Released? && Above(ss[k].areas, v) < |ss[k].areas|
  {
    RunInvariant(head, ss, ops, k);
    SearchStopsInside(ss[k], v);
    ReleaseKeepsInv(head, ss[k], v);
  }

  /** Once the last free page is out, a release depends on the head words: zeros there mean a panic. */
  lemma LastPageExample(v: nat)
    requires IsPage(v)
    ensures Given([], Area(0, 0), v) == Corrupted
  {
    assert Above([], v) == 0;
  }

  // ---- the code

  class FreeList {
    var areas: seq<Area>
    /** The two words in front of the list head. */
    const head: Area

    constructor (head: Area)
      ensures areas == Initial == [Area(0x80_0000, 0x1000_0000)] && this.head == head
    {
      areas := Initial;
      this.head := head;
    }

    /** get_page_from_heap: cut the first page off the first area. */
    method Get() returns (v: nat)
      requires areas != []
      modifies `areas
      ensures v == old(areas)[0].start && areas == Taken(old(areas))
    {
      v := areas[0].start;
      areas := areas[0 := Area(v + PAGE, areas[0].end)];
      if areas[0].start == areas[0].end {
        areas := areas[1..];
      }
    }

    /** release_page_from_heap: find the first area above v, then extend, join or insert. */
    method Release(v: nat) returns (ok: bool)
      modifies `areas
      ensures ok == Given(old(areas), head, v).Released?
      ensures ok ==> areas == Given(old(areas), head, v).areas
      ensures !ok ==> areas == old(areas)
    {
      var k := 0;
      while k < |areas| && areas[k].start <= v
        invariant k <= |areas| && areas == old(areas)
        invariant forall i :: 0 <= i < k ==> areas[i].start <= v
      {
        k := k + 1;
      }
      assert k == Above(areas, v);
      var next := if k < |areas| then areas[k] else head;
      var prev := if k > 0 then areas[k - 1] else head;
      ok := true;
      if prev.end == v {
        if k == 0 {
          ok := false;
        } else if v + PAGE != next.start {
          areas := Splice(areas, k - 1, k, Area(prev.start, v + PAGE));
        } else if k < |areas| {
          areas := Splice(areas, k - 1, k + 1, Area(prev.start, next.end));
        } else {
          ok := false;
        }
      } else if next.start == v + PAGE {
        if k < |areas| {
          areas := Splice(areas, k, k + 1, Area(v, next.end));
        } else {
          ok := false;
        }
      } else if next.start > v + PAGE {
        areas := Splice(areas, k, k, Area(v, v + PAGE));
      } else {
        ok := false;
      }
    }
  }
}
