/**
 * useActiveSection (client/src/pages/home.tsx): which navigation entry is
 * highlighted. The hook holds one value, the active id; every batch of
 * intersection entries the observer delivers is filtered to the
 * intersecting ones, sorted by a comparator that prefers sections whose
 * top is near the top of the viewport, and the first one's id, when it is
 * not empty, becomes the new active id.
 */
module ActiveSection {
  import opened Wrappers
  import SiteConfig

  /**
   * One IntersectionObserverEntry as the callback reads it: the target's id,
   * isIntersecting, intersectionRatio, and the top of the target's bounding
   * rectangle measured when the callback runs.
   */
  datatype Entry = Entry(id: string, isIntersecting: bool, ratio: real, top: real)

  /** An element of the `visible` array. */
  datatype Candidate = Candidate(id: string, ratio: real, top: real)

  /** Sections whose (clamped) top lies above this many pixels count as "near the top". */
  const NearTop: real := 120.0

  /** `Math.max(0, rect.top)`. */
  function ClampedTop(c: Candidate): (t: real)
    ensures t >= 0.0 && t >= c.top
    ensures t == c.top || t == 0.0
  {
    if c.top > 0.0 then c.top else 0.0
  }

  predicate IsNearTop(c: Candidate) {
    ClampedTop(c) < NearTop
  }

  /** The sort comparator: negative when a goes first, positive when b does. */
  function Compare(a: Candidate, b: Candidate): real {
    var topA := ClampedTop(a);
    var topB := ClampedTop(b);
    if topA < NearTop && topB < NearTop then topA - topB
    else if topA < NearTop then -1.0
    else if topB < NearTop then 1.0
    else b.ratio - a.ratio
  }

  /** a may be placed before b. */
  predicate Precedes(a: Candidate, b: Candidate) {
    Compare(a, b) <= 0.0
  }

  // ---------------------------------------------------------------------------
  // The comparator is consistent (what Array.prototype.sort asks of it)

  /** The order the comparator encodes, written out independently of it. */
  predicate RankedBefore(a: Candidate, b: Candidate) {
    if IsNearTop(a) && IsNearTop(b) then ClampedTop(a) <= ClampedTop(b)
    else if IsNearTop(a) || IsNearTop(b) then IsNearTop(a)
    else a.ratio >= b.ratio
  }

  lemma PrecedesIsRankedBefore(a: Candidate, b: Candidate)
    ensures Precedes(a, b) <==> RankedBefore(a, b)
  {
  }

  /** Swapping the arguments flips the sign and keeps zero. */
  lemma CompareAntisymmetric(a: Candidate, b: Candidate)
    ensures Compare(a, b) == -Compare(b, a)
    ensures Compare(a, b) < 0.0 <==> Compare(b, a) > 0.0
    ensures Compare(a, b) == 0.0 <==> Compare(b, a) == 0.0
  {
  }

  lemma PrecedesReflexive(a: Candidate)
    ensures Precedes(a, a) && Compare(a, a) == 0.0
  {
  }

  lemma PrecedesTotal(a: Candidate, b: Candidate)
    ensures Precedes(a, b) || Precedes(b, a)
  {
  }

  lemma PrecedesTransitive(a: Candidate, b: Candidate, c: Candidate)
    requires Precedes(a, b) && Precedes(b, c)
    ensures Precedes(a, c)
  {
  }

  /** Strictly-before is transitive as well, so the comparator is a total preorder. */
  lemma StrictlyBeforeTransitive(a: Candidate, b: Candidate, c: Candidate)
    requires Compare(a, b) < 0.0 && Precedes(b, c)
    ensures Compare(a, c) < 0.0
  {
  }

  // ---------------------------------------------------------------------------
  // Array.prototype.sort with this comparator

  /**
   * Inserts x before the first element it may precede; the elements it
   * passes all go strictly first, so equal elements keep their order.
   */
  function Insert(x: Candidate, sorted: seq<Candidate>): (r: seq<Candidate>)
    ensures multiset(r) == multiset(sorted) + multiset{x}
    ensures |r| == |sorted| + 1
  {
    if sorted == [] || Precedes(x, sorted[0]) then [x] + sorted
    else
      assert sorted == [sorted[0]] + sorted[1..];
      [sorted[0]] + Insert(x, sorted[1..])
  }

  /**
   * A stable sort. Array.prototype.sort is stable and the comparator is a
   * total preorder, so the sorted order of a sequence is unique and this is
   * the order the page works with.
   */
  function Sort(s: seq<Candidate>): (r: seq<Candidate>)
    ensures multiset(r) == multiset(s)
    ensures |r| == |s|
  {
    if s == [] then []
    else
      assert s == [s[0]] + s[1..];
      Insert(s[0], Sort(s[1..]))
  }

  predicate Sorted(s: seq<Candidate>) {
    forall i, j :: 0 <= i < j < |s| ==> Precedes(s[i], s[j])
  }

  lemma {:induction false} InsertSorted(x: Candidate, sorted: seq<Candidate>)
    requires Sorted(sorted)
    ensures Sorted(Insert(x, sorted))
  {
    if sorted != [] && !Precedes(x, sorted[0]) {
      InsertSorted(x, sorted[1..]);
      var r := Insert(x, sorted);
      var t := Insert(x, sorted[1..]);
      assert r == [sorted[0]] + t;
      forall j | 0 < j < |r| ensures Precedes(r[0], r[j]) {
        assert r[j] in multiset(t);
        assert r[j] in multiset(sorted[1..]) + multiset{x};
        if r[j] != x {
          assert r[j] in sorted[1..];
          var k :| 0 <= k < |sorted[1..]| && sorted[1..][k] == r[j];
          assert sorted[k + 1] == r[j];
        } else {
          PrecedesTotal(x, sorted[0]);
        }
      }
    } else if sorted != [] {
      var r := Insert(x, sorted);
      forall j | 0 < j < |r| ensures Precedes(r[0], r[j]) {
        PrecedesTransitive(x, sorted[0], r[j]);
      }
    }
  }

  /** The sort returns its input in an order the comparator accepts. */
  lemma {:induction false} SortSorted(s: seq<Candidate>)
    ensures Sorted(Sort(s))
  {
    if s != [] {
      SortSorted(s[1..]);
      InsertSorted(s[0], Sort(s[1..]));
    }
  }

  /**
   * Index k holds the first minimum of s: no element goes strictly before
   * s[k], and every earlier element goes strictly after it.
   */
  predicate IsFirstMinimum(s: seq<Candidate>, k: int) {
    && 0 <= k < |s|
    && (forall j :: 0 <= j < |s| ==> Precedes(s[k], s[j]))
    && (forall j :: 0 <= j < k ==> !Precedes(s[j], s[k]))
  }

  lemma FirstMinimumUnique(s: seq<Candidate>, k: int, l: int)
    requires IsFirstMinimum(s, k) && IsFirstMinimum(s, l)
    ensures k == l
  {
    var sk, sl := s[k], s[l];
    assert Precedes(sk, sl) && Precedes(sl, sk);
  }

  /** When s[0] may precede the first minimum of the rest, s[0] is the first minimum of s. */
  lemma HeadWins(s: seq<Candidate>, k': int)
    requires |s| >= 2 && IsFirstMinimum(s[1..], k') && Precedes(s[0], s[k' + 1])
    ensures IsFirstMinimum(s, 0)
  {
    forall j | 0 <= j < |s| ensures Precedes(s[0], s[j]) {
      if j == 0 {
        PrecedesReflexive(s[0]);
      } else {
        assert s[1..][j - 1] == s[j];
        PrecedesTransitive(s[0], s[k' + 1], s[j]);
      }
    }
  }

  /** Otherwise the first minimum of the rest is that of s. */
  lemma TailWins(s: seq<Candidate>, k': int)
    requires |s| >= 2 && IsFirstMinimum(s[1..], k') && !Precedes(s[0], s[k' + 1])
    ensures IsFirstMinimum(s, k' + 1)
  {
    var m := s[k' + 1];
    assert s[1..][k'] == m;
    PrecedesTotal(s[0], m);
    forall j | 0 <= j < |s| ensures Precedes(m, s[j]) {
      if j > 0 {
        assert s[1..][j - 1] == s[j];
      }
    }
    forall j | 0 <= j < k' + 1 ensures !Precedes(s[j], m) {
      if j > 0 {
        assert s[1..][j - 1] == s[j];
      }
    }
  }

  /** The head of the sorted sequence is its first minimum (ties go to the earlier entry). */
  lemma {:induction false} SortHead(s: seq<Candidate>) returns (k: int)
    requires s != []
    ensures IsFirstMinimum(s, k) && Sort(s)[0] == s[k]
  {
    if |s| == 1 {
      k := 0;
      PrecedesReflexive(s[0]);
    } else {
      var t := Sort(s[1..]);
      var k' := SortHead(s[1..]);
      assert t[0] == s[k' + 1];
      if Precedes(s[0], t[0]) {
        k := 0;
        HeadWins(s, k');
      } else {
        k := k' + 1;
        TailWins(s, k');
      }
    }
  }

  // ---------------------------------------------------------------------------
  // The callback

  /** `entries.filter((e) => e.isIntersecting).map(...)`. */
  function Visible(entries: seq<Entry>): (v: seq<Candidate>)
    ensures |v| <= |entries|
  {
    if entries == [] then []
    else
      var e := entries[0];
      (if e.isIntersecting then [Candidate(e.id, e.ratio, e.top)] else []) + Visible(entries[1..])
  }

  /** The id the callback installs, if it installs one (`visible[0]?.id` is truthy). */
  function Chosen(entries: seq<Entry>): Option<string> {
    var visible := Sort(Visible(entries));
    if |visible| > 0 && visible[0].id != "" then Some(visible[0].id) else None
  }

  /** The active id after one observer callback. */
  function Reduce(active: string, entries: seq<Entry>): string {
    match Chosen(entries)
    case Some(id) => id
    case None => active
  }

  lemma {:induction false} VisibleMembers(entries: seq<Entry>)
    ensures forall c :: c in Visible(entries) <==> exists e :: e in entries && e.isIntersecting && c == Candidate(e.id, e.ratio, e.top)
  {
    if entries != [] {
      VisibleMembers(entries[1..]);
      forall c | (exists e :: e in entries && e.isIntersecting && c == Candidate(e.id, e.ratio, e.top))
        ensures c in Visible(entries)
      {
        var e :| e in entries && e.isIntersecting && c == Candidate(e.id, e.ratio, e.top);
        if e != entries[0] {
          assert e in entries[1..];
        }
      }
    }
  }

  /** The filter works entry by entry: the candidates of a batch keep the batch's order and multiplicity. */
  lemma {:induction false} VisibleAppend(a: seq<Entry>, b: seq<Entry>)
    ensures Visible(a + b) == Visible(a) + Visible(b)
  {
    if a == [] {
      assert a + b == b;
    } else {
      assert (a + b)[0] == a[0];
      assert (a + b)[1..] == a[1..] + b;
      VisibleAppend(a[1..], b);
    }
  }

  /** A single entry yields its candidate exactly when it intersects. */
  lemma VisibleOne(e: Entry)
    ensures Visible([e]) == if e.isIntersecting then [Candidate(e.id, e.ratio, e.top)] else []
  {
    assert [e][1..] == [];
  }

  lemma {:induction false} NothingVisible(entries: seq<Entry>)
    requires forall i :: 0 <= i < |entries| ==> !entries[i].isIntersecting
    ensures Visible(entries) == []
  {
    if entries != [] {
      NothingVisible(entries[1..]);
    }
  }

  /** A batch in which nothing intersects leaves the active id alone. */
  lemma ReduceNothingVisible(active: string, entries: seq<Entry>)
    requires forall i :: 0 <= i < |entries| ==> !entries[i].isIntersecting
    ensures Reduce(active, entries) == active
  {
    NothingVisible(entries);
  }

  /**
   * Whatever the callback installs is the id of an intersecting entry and is
   * never empty; otherwise the active id stays as it was.
   */
  lemma ReduceInstallsIntersecting(active: string, entries: seq<Entry>)
    ensures var r := Reduce(active, entries);
      r == active || (r != "" && exists e :: e in entries && e.isIntersecting && e.id == r)
  {
    var v := Visible(entries);
    if Chosen(entries).Some? {
      VisibleMembers(entries);
      assert Sort(v)[0] in multiset(Sort(v));
      assert Sort(v)[0] in v;
    }
  }

  /** A batch with a single intersecting entry makes that entry's id active, unless it is empty. */
  lemma ReduceSingleVisible(active: string, entries: seq<Entry>, e: Entry)
    requires Visible(entries) == [Candidate(e.id, e.ratio, e.top)]
    ensures Reduce(active, entries) == if e.id != "" then e.id else active
  {
  }

  /**
   * The policy in words. When some intersecting section is near the top, the
   * winner is near the top with the least clamped top, and every earlier
   * entry near the top has a strictly greater one. Otherwise the winner has
   * the greatest ratio, and every earlier entry a strictly smaller one.
   */
  lemma ChosenPolicy(entries: seq<Entry>) returns (k: int)
    requires Visible(entries) != []
    ensures var v := Visible(entries); 0 <= k < |v| && Sort(v)[0] == v[k]
    ensures var v := Visible(entries);
      if exists j :: 0 <= j < |v| && IsNearTop(v[j]) then
        && IsNearTop(v[k])
        && (forall j :: 0 <= j < |v| && IsNearTop(v[j]) ==> ClampedTop(v[k]) <= ClampedTop(v[j]))
        && (forall j :: 0 <= j < k && IsNearTop(v[j]) ==> ClampedTop(v[k]) < ClampedTop(v[j]))
      else
        && (forall j :: 0 <= j < |v| ==> v[k].ratio >= v[j].ratio)
        && (forall j :: 0 <= j < k ==> v[j].ratio < v[k].ratio)
  {
    var v := Visible(entries);
    k := SortHead(v);
  }

  /** With two intersecting entries the first wins unless the comparator puts the second strictly first. */
  lemma ReduceOfTwo(active: string, a: Entry, b: Entry)
    requires a.isIntersecting && b.isIntersecting && a.id != "" && b.id != ""
    ensures Reduce(active, [a, b])
         == if Precedes(Candidate(a.id, a.ratio, a.top), Candidate(b.id, b.ratio, b.top)) then a.id else b.id
  {
    var ca, cb := Candidate(a.id, a.ratio, a.top), Candidate(b.id, b.ratio, b.top);
    assert [a, b][1..] == [b];
    assert Visible([b]) == [cb];
    assert Visible([a, b]) == [ca, cb];
    assert Sort([cb]) == [cb];
    assert Sort([ca, cb]) == Insert(ca, [cb]);
  }

  /**
   * "story" with ratio 0.6 and "work" with ratio 0.3, both intersecting:
   * when neither is near the top the larger ratio wins.
   */
  lemma ReduceExampleByRatio()
    ensures Reduce("home", [Entry("story", true, 0.6, 200.0), Entry("work", true, 0.3, 500.0)]) == "story"
  {
    ReduceOfTwo("home", Entry("story", true, 0.6, 200.0), Entry("work", true, 0.3, 500.0));
  }

  /** The same two sections with "work" near the top: it wins despite its smaller ratio. */
  lemma ReduceExampleByTop()
    ensures Reduce("home", [Entry("story", true, 0.6, 300.0), Entry("work", true, 0.3, 50.0)]) == "work"
  {
    ReduceOfTwo("home", Entry("story", true, 0.6, 300.0), Entry("work", true, 0.3, 50.0));
  }

  /**
   * A section whose top has scrolled above the viewport counts as top 0 and
   * so beats every other section near the top.
   */
  lemma ReduceExampleClamped()
    ensures Reduce("home", [Entry("work", true, 0.3, 50.0), Entry("story", true, 0.6, -300.0)]) == "story"
  {
    ReduceOfTwo("home", Entry("work", true, 0.3, 50.0), Entry("story", true, 0.6, -300.0));
  }

  // ---------------------------------------------------------------------------
  // The hook's state

  const DefaultId: string := "home"

  /** `sectionIds[0] ?? "home"`: an empty first id is kept, only a missing one is replaced. */
  function InitialActive(sectionIds: seq<string>): (id: string)
    ensures |sectionIds| > 0 ==> id == sectionIds[0]
    ensures |sectionIds| == 0 ==> id == DefaultId
  {
    if |sectionIds| > 0 then sectionIds[0] else DefaultId
  }

  /** The page tracks the navigation's ids, so it starts on its first entry, "home". */
  lemma InitialActiveOfNavigation()
    ensures InitialActive(SiteConfig.NavIds) == "home" && "home" in SiteConfig.NavIds
  {
  }

  /** The value of useActiveSection for one mounted page, with its observer. */
  class Tracker {
    const sectionIds: seq<string>
    var active: string
    /** Whether an IntersectionObserver is connected and delivering batches. */
    var observing: bool

    /** The active id is one of the configured ids, or the default when there are none. */
    predicate ActiveIsSection()
      reads this
    {
      active in sectionIds || (sectionIds == [] && active == DefaultId)
    }

    /**
     * Mounting: the initial state, then the effect, which creates an observer
     * only when some id resolves to an element (`resolved` is the set of ids
     * document.getElementById finds).
     */
    constructor (sectionIds: seq<string>, resolved: set<string>)
      ensures this.sectionIds == sectionIds
      ensures active == InitialActive(sectionIds)
      ensures observing <==> exists i :: 0 <= i < |sectionIds| && sectionIds[i] in resolved
      ensures ActiveIsSection()
    {
      this.sectionIds := sectionIds;
      active := InitialActive(sectionIds);
      observing := exists i :: 0 <= i < |sectionIds| && sectionIds[i] in resolved;
    }

    /**
     * One observer callback. Without an observer no batch is ever delivered,
     * so the active id stays where it was.
     */
    method Observe(entries: seq<Entry>)
      modifies this`active
      ensures active == if observing then Reduce(old(active), entries) else old(active)
      ensures old(ActiveIsSection()) && (forall i :: 0 <= i < |entries| ==> entries[i].id in sectionIds)
              ==> ActiveIsSection()
    {
      if observing {
        match Chosen(entries)
        case Some(id) =>
          active := id;
        case None =>
      }
      ReduceInstallsIntersecting(old(active), entries);
    }

    /** Unmounting: `observer.disconnect()`. */
    method Disconnect()
      modifies this`observing
      ensures !observing
    {
      observing := false;
    }
  }
}
