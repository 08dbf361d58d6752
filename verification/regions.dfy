/** The region list of the virtual address-space allocator (src/memory/vaddress.c) as a sequence of address spans:
    what `vaddress_allocate` and `vaddress_free` make of it, and what that means for the covered addresses. */
module Regions {

  datatype Span = Span(begin: nat, end: nat)

  /** Line 164 under "Shift block start" assigns `end`; the comment asks for `begin`. Both readings are modelled. */
  datatype Line164 = AsWritten | AsCommented

  ghost predicate Covers(rs: seq<Span>, x: nat) {
    exists i :: 0 <= i < |rs| && rs[i].begin <= x < rs[i].end
  }

  lemma CoversMeans(rs: seq<Span>, x: nat)
    ensures Covers(rs, x) <==> exists i :: 0 <= i < |rs| && rs[i].begin <= x && x < rs[i].end
  {
  }

  /** In address order, without overlap. */
  ghost predicate Sorted(rs: seq<Span>) {
    && (forall i :: 0 <= i < |rs| ==> rs[i].begin <= rs[i].end)
    && (forall i, k :: 0 <= i < k < |rs| ==> rs[i].end <= rs[k].begin)
  }

  /** No empty region. */
  ghost predicate Tight(rs: seq<Span>) {
    forall i :: 0 <= i < |rs| ==> rs[i].begin < rs[i].end
  }

  ghost predicate Within(rs: seq<Span>, lo: nat, hi: nat) {
    forall i :: 0 <= i < |rs| ==> lo <= rs[i].begin && rs[i].end <= hi
  }

  lemma CoversHead(rs: seq<Span>, x: nat)
    requires rs != []
    ensures Covers(rs, x) <==> rs[0].begin <= x < rs[0].end || Covers(rs[1..], x)
  {
  }

  lemma CoversCons(r: Span, rs: seq<Span>, x: nat)
    ensures Covers([r] + rs, x) <==> r.begin <= x < r.end || Covers(rs, x)
  {
    CoversHead([r] + rs, x);
    assert ([r] + rs)[1..] == rs;
  }

  // ------------------------------------------------------------------ freeing

  /** What becomes of a region that starts no later than e when [a, e) is freed (lines 151-184). */
  function Cut(r: Span, a: nat, e: nat, line: Line164): seq<Span> {
    if r.end < a then [r]
    else if a <= r.begin && r.end <= e then []
    else if a <= r.begin then [if line.AsWritten? then Span(r.begin, e) else Span(e, r.end)]
    else if r.end <= e then [Span(r.begin, a)]
    else [Span(r.begin, a), Span(e, r.end)]
  }

  /** The list after `vaddress_free` of the addresses [a, e) (lines 136-188). */
  function Freed(rs: seq<Span>, a: nat, e: nat, line: Line164): seq<Span> {
    if rs == [] then []
    else if e < rs[0].begin then rs
    else Cut(rs[0], a, e, line) + Freed(rs[1..], a, e, line)
  }

  lemma SortedTail(rs: seq<Span>)
    requires Sorted(rs) && rs != []
    ensures Sorted(rs[1..]) && forall i :: 0 <= i < |rs[1..]| ==> rs[0].end <= rs[1..][i].begin
  {
  }

  lemma SortedFirst(rs: seq<Span>, e: nat)
    requires Sorted(rs) && (rs != [] ==> e <= rs[0].begin)
    ensures forall i :: 0 <= i < |rs| ==> e <= rs[i].begin
  {
  }

  lemma FarCovers(rs: seq<Span>, e: nat, x: nat)
    requires Sorted(rs) && rs != [] && e < rs[0].begin && x <= e
    ensures !Covers(rs, x)
  {
  }

  lemma CutCovers(r: Span, a: nat, e: nat, x: nat)
    requires r.begin <= e && r.begin <= r.end && a <= e
    ensures Covers(Cut(r, a, e, AsCommented), x) <==> r.begin <= x < r.end && !(a <= x < e)
  {
    var cut := Cut(r, a, e, AsCommented);
    if cut != [] { CoversHead(cut, x); }
    if |cut| == 2 { CoversHead(cut[1..], x); }
  }

  lemma CoversConcat(rs: seq<Span>, ss: seq<Span>, x: nat)
    ensures Covers(rs + ss, x) <==> Covers(rs, x) || Covers(ss, x)
  {
    var all := rs + ss;
    if i :| 0 <= i < |rs| && rs[i].begin <= x < rs[i].end { assert all[i] == rs[i]; }
    if i :| 0 <= i < |ss| && ss[i].begin <= x < ss[i].end { assert all[|rs| + i] == ss[i]; }
  }

  /** With line 164 meaning what its comment says, freeing removes exactly [a, e) from the covered addresses. */
  lemma {:induction false} FreedCovers(rs: seq<Span>, a: nat, e: nat, x: nat)
    requires Sorted(rs) && a <= e
    ensures Covers(Freed(rs, a, e, AsCommented), x) <==> Covers(rs, x) && !(a <= x < e)
  {
    if rs != [] {
      SortedTail(rs);
      if e < rs[0].begin {
        if x < e { FarCovers(rs, e, x); }
      } else {
        CoversHead(rs, x);
        FreedCovers(rs[1..], a, e, x);
        CutCovers(rs[0], a, e, x);
        CoversConcat(Cut(rs[0], a, e, AsCommented), Freed(rs[1..], a, e, AsCommented), x);
      }
    }
  }

  /** Put before a sorted list that starts no earlier than its end, a region keeps the list sorted. */
  lemma Prepend(r: Span, rs: seq<Span>, lo: nat, mid: nat, hi: nat)
    requires lo <= r.begin <= r.end <= mid <= hi && Sorted(rs) && Within(rs, mid, hi)
    ensures Sorted([r] + rs) && Within([r] + rs, lo, hi)
  {
  }

  lemma CutSorted(r: Span, a: nat, e: nat, line: Line164)
    requires r.begin <= r.end && r.begin <= e && a <= e
    ensures Sorted(Cut(r, a, e, line)) && Within(Cut(r, a, e, line), r.begin, r.end)
  {
  }

  lemma SortedConcat(rs: seq<Span>, ss: seq<Span>, lo: nat, mid: nat, hi: nat)
    requires Sorted(rs) && Within(rs, lo, mid) && Sorted(ss) && Within(ss, mid, hi) && lo <= mid <= hi
    ensures Sorted(rs + ss) && Within(rs + ss, lo, hi)
  {
  }

  /** Either reading keeps the list in order and within its bounds. */
  lemma {:induction false} FreedSorted(rs: seq<Span>, a: nat, e: nat, line: Line164, lo: nat, hi: nat)
    requires Sorted(rs) && a <= e && Within(rs, lo, hi)
    ensures Sorted(Freed(rs, a, e, line)) && Within(Freed(rs, a, e, line), lo, hi)
  {
    if rs != [] && e >= rs[0].begin {
      SortedTail(rs);
      assert lo <= rs[0].begin <= rs[0].end <= hi;
      FreedSorted(rs[1..], a, e, line, rs[0].end, hi);
      CutSorted(rs[0], a, e, line);
      SortedConcat(Cut(rs[0], a, e, line), Freed(rs[1..], a, e, line), rs[0].begin, rs[0].end, hi);
    }
  }

  /** Regions that all start beyond e are not touched. */
  lemma FreedLater(rs: seq<Span>, a: nat, e: nat, line: Line164)
    requires rs != [] ==> e < rs[0].begin
    ensures Freed(rs, a, e, line) == rs
  {
  }

  /** The regions left by freeing, as commented: exactly the parts of the old ones before a and from e on, where
      there is anything of them. */
  lemma {:induction false} FreedPieces(rs: seq<Span>, a: nat, e: nat, s: Span)
    requires Sorted(rs) && Tight(rs) && a <= e
    ensures s in Freed(rs, a, e, AsCommented) <==>
            && s.begin < s.end
            && exists r :: r in rs &&
                           (s == Span(r.begin, if r.end < a then r.end else a) ||
                            s == Span(if r.begin < e then e else r.begin, r.end))
  {
    if rs != [] {
      SortedTail(rs);
      assert rs == [rs[0]] + rs[1..];
      if e < rs[0].begin {
        FreedLater(rs, a, e, AsCommented);
        SortedFirst(rs, rs[0].begin);
        assert forall r :: r in rs ==> e < r.begin && r.begin < r.end;
      } else {
        assert Tight(rs[1..]) by {
          forall i | 0 <= i < |rs[1..]| ensures rs[1..][i].begin < rs[1..][i].end { assert rs[1..][i] == rs[i + 1]; }
        }
        FreedPieces(rs[1..], a, e, s);
        FreedHead(rs, a, e, AsCommented);
        CutPieces(rs[0], a, e, s);
      }
    }
    hide *;
  }

  lemma CutPieces(r: Span, a: nat, e: nat, s: Span)
    requires r.begin < r.end && r.begin <= e && a <= e
    ensures s in Cut(r, a, e, AsCommented) <==>
            && s.begin < s.end
            && (s == Span(r.begin, if r.end < a then r.end else a) ||
                s == Span(if r.begin < e then e else r.begin, r.end))
  {
  }

  /** At most one region is split, so at most one node is taken from storage. */
  lemma {:induction false} FreedLength(rs: seq<Span>, a: nat, e: nat, line: Line164)
    requires Sorted(rs) && a <= e
    ensures |Freed(rs, a, e, line)| <= |rs| + 1
  {
    if rs != [] {
      var r, rest := rs[0], rs[1..];
      SortedTail(rs);
      if a < r.begin || e >= r.end {
        FreedLength(rest, a, e, line);
      } else {
        FreedLater(rest, a, e, line);
      }
    }
  }

  /** The freed range lies strictly inside a region, which must be split in two. */
  ghost predicate Splits(rs: seq<Span>, a: nat, e: nat) {
    exists i :: 0 <= i < |rs| && rs[i].begin < a && e < rs[i].end
  }

  /** Region c replaced by some others. */
  function Replace(rs: seq<Span>, c: nat, cut: seq<Span>): seq<Span> {
    if c < |rs| then rs[..c] + cut + rs[c + 1..] else rs
  }

  /** The walk of `vaddress_free` has reached region c: what is before it is final, the rest is still to be freed. */
  ghost predicate Reached(rs: seq<Span>, c: nat, goal: seq<Span>, a: nat, e: nat, line: Line164) {
    c <= |rs| && a <= e && Sorted(rs[c..]) && goal == rs[..c] + Freed(rs[c..], a, e, line)
  }

  lemma ReachedStart(rs: seq<Span>, a: nat, e: nat, line: Line164)
    ensures Sorted(rs) && a <= e ==> Reached(rs, 0, Freed(rs, a, e, line), a, e, line)
    ensures SplitsFrom(rs, 0, a, e) ==> Splits(rs, a, e)
  {
  }

  /** The walk ends at the end of the list, or at a region that starts beyond e. */
  lemma ReachedEnd(rs: seq<Span>, c: nat, goal: seq<Span>, a: nat, e: nat, line: Line164)
    ensures Reached(rs, c, goal, a, e, line) && (c == |rs| || (c < |rs| && e < rs[c].begin)) ==> rs == goal
  {
  }

  /** One step of the walk: region c is replaced by what it becomes. A region still ahead that must be split was ahead
      before the step, and the step itself split none. */
  lemma ReachedNext(rs: seq<Span>, c: nat, goal: seq<Span>, a: nat, e: nat, line: Line164)
    ensures Reached(rs, c, goal, a, e, line) && c < |rs| && e >= rs[c].begin ==>
              var cut := Cut(rs[c], a, e, line);
              && Reached(Replace(rs, c, cut), c + |cut|, goal, a, e, line)
              && (SplitsFrom(Replace(rs, c, cut), c + |cut|, a, e) ==> SplitsFrom(rs, c, a, e) && |cut| < 2)
    ensures c < |rs| && rs[c].begin < a && e < rs[c].end ==> SplitsFrom(rs, c, a, e)
  {
    if c < |rs| {
      if Reached(rs, c, goal, a, e, line) && e >= rs[c].begin {
        ReachedStep(rs, c, goal, a, e, line);
        SplitsStep(rs, c, a, e, line);
      }
    }
    hide *;
  }

  lemma ReachedStep(rs: seq<Span>, c: nat, goal: seq<Span>, a: nat, e: nat, line: Line164)
    requires Reached(rs, c, goal, a, e, line) && c < |rs| && e >= rs[c].begin
    ensures var cut := Cut(rs[c], a, e, line); Reached(Replace(rs, c, cut), c + |cut|, goal, a, e, line)
  {
    SortedTail(rs[c..]);
    FreedHead(rs[c..], a, e, line);
    ReplaceParts(rs, c, Cut(rs[c], a, e, line));
    hide Freed, Sorted, Replace, Cut;
  }

  lemma SplitsStep(rs: seq<Span>, c: nat, a: nat, e: nat, line: Line164)
    requires c < |rs| && Sorted(rs[c..]) && a <= e
    ensures var cut := Cut(rs[c], a, e, line);
      SplitsFrom(Replace(rs, c, cut), c + |cut|, a, e) ==> SplitsFrom(rs, c, a, e) && |cut| < 2
  {
  }

  lemma ReplaceSame(rs: seq<Span>, c: nat)
    ensures c < |rs| ==> Replace(rs, c, [rs[c]]) == rs
  {
  }

  lemma ReplaceOne(rs: seq<Span>, c: nat, r: Span)
    requires c < |rs|
    ensures Replace(rs, c, [r]) == rs[c := r]
  {
  }

  lemma ReplaceParts(rs: seq<Span>, c: nat, cut: seq<Span>)
    requires c < |rs|
    ensures |Replace(rs, c, cut)| == |rs| - 1 + |cut|
    ensures Replace(rs, c, cut)[..c + |cut|] == rs[..c] + cut
    ensures Replace(rs, c, cut)[c + |cut|..] == rs[c..][1..]
  {
  }

  lemma FreedHead(rs: seq<Span>, a: nat, e: nat, line: Line164)
    requires rs != [] && e >= rs[0].begin
    ensures Freed(rs, a, e, line) == Cut(rs[0], a, e, line) + Freed(rs[1..], a, e, line)
  {
  }

  ghost predicate SplitsFrom(rs: seq<Span>, c: nat, a: nat, e: nat) {
    exists i :: c <= i < |rs| && rs[i].begin < a && e < rs[i].end
  }

  /** Freeing leaves no empty region behind when there was none. */
  lemma {:induction false} FreedTight(rs: seq<Span>, a: nat, e: nat)
    requires Tight(rs) && a <= e
    ensures Tight(Freed(rs, a, e, AsCommented))
  {
    if rs != [] {
      assert Tight(rs[1..]) by {
        forall i | 0 <= i < |rs[1..]| ensures rs[1..][i].begin < rs[1..][i].end { assert rs[1..][i] == rs[i + 1]; }
      }
      FreedTight(rs[1..], a, e);
    }
  }

  /** The branch of line 164 is taken: some region starts inside [a, e] and ends beyond e. */
  ghost predicate ShiftsStart(rs: seq<Span>, a: nat, e: nat) {
    exists i :: 0 <= i < |rs| && a <= rs[i].begin <= e < rs[i].end
  }

  lemma ShiftsHead(rs: seq<Span>, a: nat, e: nat)
    requires rs != []
    ensures ShiftsStart(rs, a, e) <==> a <= rs[0].begin <= e < rs[0].end || ShiftsStart(rs[1..], a, e)
  {
  }

  lemma {:induction false} NoShiftSame(rs: seq<Span>, a: nat, e: nat)
    requires !ShiftsStart(rs, a, e)
    ensures Freed(rs, a, e, AsWritten) == Freed(rs, a, e, AsCommented)
  {
    if rs != [] {
      ShiftsHead(rs, a, e);
      NoShiftSame(rs[1..], a, e);
    }
  }

  /** If the branch is taken, the literal code loses the address e, which was covered and not to be freed. */
  lemma {:induction false} ShiftLoses(rs: seq<Span>, a: nat, e: nat)
    requires Sorted(rs) && a <= e && ShiftsStart(rs, a, e)
    ensures Covers(rs, e) && !Covers(Freed(rs, a, e, AsWritten), e)
  {
    var r, rest := rs[0], rs[1..];
    SortedTail(rs);
    ShiftsHead(rs, a, e);
    CoversHead(rs, e);
    var more := Freed(rest, a, e, AsWritten);
    if a <= r.begin <= e < r.end {
      NothingAt(rest, a, e);
      CoversCons(Span(r.begin, e), more, e);
    } else {
      var i :| 0 <= i < |rest| && a <= rest[i].begin <= e < rest[i].end;
      ShiftLoses(rest, a, e);
      assert r.end <= rest[i].begin <= e;
      if r.end < a {
        CoversCons(r, more, e);
      } else if a <= r.begin && r.end <= e {
      } else {
        CoversCons(Span(r.begin, a), more, e);
      }
    }
  }

  /** Regions that all start beyond e are not reached. */
  lemma {:induction false} NothingAt(rs: seq<Span>, a: nat, e: nat)
    requires forall i :: 0 <= i < |rs| ==> e < rs[i].begin
    ensures Freed(rs, a, e, AsWritten) == rs && !Covers(rs, e)
  {
  }

  /** The code as written frees exactly [a, e) if and only if no region starts inside [a, e] and ends beyond e. */
  lemma LiteralFreeExact(rs: seq<Span>, a: nat, e: nat)
    requires Sorted(rs) && a <= e
    ensures (forall x: nat :: Covers(Freed(rs, a, e, AsWritten), x) <==> Covers(rs, x) && !(a <= x < e)) <==>
              !ShiftsStart(rs, a, e)
  {
    hide Covers, Freed;
    if ShiftsStart(rs, a, e) {
      ShiftLoses(rs, a, e);
    } else {
      NoShiftSame(rs, a, e);
      forall x: nat ensures Covers(Freed(rs, a, e, AsWritten), x) <==> Covers(rs, x) && !(a <= x < e) {
        FreedCovers(rs, a, e, x);
      }
    }
  }

  /** What the literal code covers afterwards, for every range: a region that starts inside [a, e] and ends beyond e is
      cut to what lies before e, any other loses [a, e). */
  lemma {:induction false} LiteralFreeCovers(rs: seq<Span>, a: nat, e: nat, x: nat)
    requires Sorted(rs) && a <= e
    ensures Covers(Freed(rs, a, e, AsWritten), x) <==>
            exists i :: 0 <= i < |rs| && rs[i].begin <= x < rs[i].end
              && if a <= rs[i].begin <= e < rs[i].end then x < e else !(a <= x < e)
  {
    if rs != [] {
      SortedTail(rs);
      if e < rs[0].begin {
        FreedLater(rs, a, e, AsWritten);
        forall i | 0 <= i < |rs| ensures e < rs[i].begin { SortedFirst(rs, rs[0].begin); }
      } else {
        LiteralFreeCovers(rs[1..], a, e, x);
        FreedHead(rs, a, e, AsWritten);
        CoversConcat(Cut(rs[0], a, e, AsWritten), Freed(rs[1..], a, e, AsWritten), x);
        LiteralCut(rs[0], a, e, x);
        LiteralTail(rs, a, e, x);
      }
    }
    hide *;
  }

  lemma LiteralCut(r: Span, a: nat, e: nat, x: nat)
    requires r.begin <= e && a <= e && r.begin <= r.end
    ensures Covers(Cut(r, a, e, AsWritten), x) <==>
            r.begin <= x < r.end && if a <= r.begin <= e < r.end then x < e else !(a <= x < e)
  {
    var cut := Cut(r, a, e, AsWritten);
    if |cut| > 0 { CoversHead(cut, x); }
    if |cut| > 1 { CoversHead(cut[1..], x); }
  }

  lemma LiteralTail(rs: seq<Span>, a: nat, e: nat, x: nat)
    requires rs != []
    ensures (exists i :: 0 <= i < |rs| && rs[i].begin <= x < rs[i].end
                    && if a <= rs[i].begin <= e < rs[i].end then x < e else !(a <= x < e)) <==>
            (rs[0].begin <= x < rs[0].end && if a <= rs[0].begin <= e < rs[0].end then x < e else !(a <= x < e)) ||
            exists i :: 0 <= i < |rs[1..]| && rs[1..][i].begin <= x < rs[1..][i].end
              && if a <= rs[1..][i].begin <= e < rs[1..][i].end then x < e else !(a <= x < e)
  {
    var rest := rs[1..];
    if i :| 0 <= i < |rs| && rs[i].begin <= x < rs[i].end
            && if a <= rs[i].begin <= e < rs[i].end then x < e else !(a <= x < e)
    {
      if i > 0 { assert rest[i - 1] == rs[i]; }
    }
    if i :| 0 <= i < |rest| && rest[i].begin <= x < rest[i].end
            && if a <= rest[i].begin <= e < rest[i].end then x < e else !(a <= x < e)
    {
      assert rs[i + 1] == rest[i];
    }
  }

  /** One region, freed at its front: as written, its front is kept and its back is lost. */
  lemma LiteralFreeExample()
    ensures Freed([Span(0x1000, 0x3000)], 0x1000, 0x2000, AsWritten) == [Span(0x1000, 0x2000)]
    ensures Freed([Span(0x1000, 0x3000)], 0x1000, 0x2000, AsCommented) == [Span(0x2000, 0x3000)]
  {
  }

  // ------------------------------------------------------------------ allocating

  datatype Found = None | Some(address: nat)

  /** What the code returns: the address, or 0 for NULL. */
  function Pointer(f: Found): nat {
    if f.Some? then f.address else 0
  }

  /** Where the gap after the regions before rs ends. */
  function GapEnd(rs: seq<Span>, hi: nat): nat {
    if rs == [] then hi else rs[0].begin
  }

  /** The list and the address after `vaddress_allocate` looks at the gaps behind the regions (lines 118-133). */
  function Extended(rs: seq<Span>, hi: nat, size: nat): (Found, seq<Span>) {
    if rs == [] then (None, [])
    else if GapEnd(rs[1..], hi) - rs[0].end >= size then
      (Some(rs[0].end), [Span(rs[0].begin, rs[0].end + size)] + rs[1..])
    else
      var (f, more) := Extended(rs[1..], hi, size);
      (f, [rs[0]] + more)
  }

  /** The gap behind region i. */
  function Gap(rs: seq<Span>, hi: nat, i: nat): int {
    if i + 1 < |rs| then rs[i + 1].begin - rs[i].end else if i < |rs| then hi - rs[i].end else 0
  }

  /** The first region with a large enough gap behind it is extended. */
  lemma {:induction false} ExtendedAt(rs: seq<Span>, hi: nat, size: nat, c: nat)
    requires c <= |rs| && (forall i :: 0 <= i < c ==> Gap(rs, hi, i) < size) && (c < |rs| ==> Gap(rs, hi, c) >= size)
    ensures Extended(rs, hi, size) ==
            if c < |rs| then (Some(rs[c].end), rs[c := Span(rs[c].begin, rs[c].end + size)]) else (None, rs)
  {
    if rs != [] && c == 0 {
      var r := Span(rs[0].begin, rs[0].end + size);
      assert [r] + rs[1..] == rs[0 := r];
    } else if rs != [] {
      var rest := rs[1..];
      assert Gap(rs, hi, 0) < size;
      forall i | 0 <= i < |rest| ensures Gap(rest, hi, i) == Gap(rs, hi, i + 1) {}
      ExtendedAt(rest, hi, size, c - 1);
      assert [rs[0]] + rest == rs;
      if c < |rs| {
        var r := Span(rs[c].begin, rs[c].end + size);
        assert rest[c - 1] == rs[c] && [rs[0]] + rest[c - 1 := r] == rs[c := r];
      }
    }
  }

  /** `vaddress_allocate`: the gap before the first region gets a region of its own, any other extends the region
      before it (lines 99-134). */
  function Allocated(rs: seq<Span>, lo: nat, hi: nat, size: nat): (Found, seq<Span>) {
    if GapEnd(rs, hi) - lo >= size then (Some(lo), [Span(lo, lo + size)] + rs)
    else Extended(rs, hi, size)
  }

  /** The block of this size at x lies in [lo, hi) and meets no covered address. */
  ghost predicate Fits(rs: seq<Span>, lo: nat, hi: nat, size: nat, x: nat) {
    lo <= x && x + size <= hi && forall y: nat :: x <= y < x + size ==> !Covers(rs, y)
  }

  lemma FitsTail(rs: seq<Span>, lo: nat, hi: nat, size: nat, x: nat)
    requires Sorted(rs) && rs != [] && rs[0].begin < rs[0].end && lo <= rs[0].begin && size > 0
    ensures Fits(rs, lo, hi, size, x) && x >= rs[0].begin ==> x >= rs[0].end && Fits(rs[1..], rs[0].end, hi, size, x)
    ensures x >= rs[0].end && Fits(rs[1..], rs[0].end, hi, size, x) ==> Fits(rs, lo, hi, size, x)
    ensures Fits(rs, lo, hi, size, x) && x < rs[0].begin ==> x + size <= rs[0].begin
  {
    forall y: nat ensures Covers(rs, y) <==> rs[0].begin <= y < rs[0].end || Covers(rs[1..], y) { CoversHead(rs, y); }
    hide Covers;
    assert Covers(rs, rs[0].begin);
    assert rs[0].begin <= x < rs[0].end ==> Covers(rs, x);
  }

  lemma FitsFirst(rs: seq<Span>, lo: nat, hi: nat, size: nat, x: nat)
    requires Sorted(rs) && size > 0 && lo <= x && x + size <= GapEnd(rs, hi) <= hi
    ensures Fits(rs, lo, hi, size, x)
  {
  }

  /** Behind the first region: the lowest fit, or none at all. */
  lemma {:induction false} ExtendedIsFirstFit(rs: seq<Span>, hi: nat, size: nat)
    requires Sorted(rs) && Tight(rs) && Within(rs, 0, hi) && size > 0 && rs != []
    ensures var (f, _) := Extended(rs, hi, size);
      && (f.Some? ==>
            && Fits(rs[1..], rs[0].end, hi, size, f.address)
            && forall x: nat :: rs[0].end <= x < f.address ==> !Fits(rs[1..], rs[0].end, hi, size, x))
      && (f.None? ==> forall x: nat :: !Fits(rs[1..], rs[0].end, hi, size, x))
  {
    var r, rest := rs[0], rs[1..];
    SortedTail(rs);
    assert Tight(rest) && Within(rest, 0, hi) && r.end <= GapEnd(rest, hi) <= hi;
    if GapEnd(rest, hi) - r.end >= size {
      FitsFirst(rest, r.end, hi, size, r.end);
    } else if rest != [] {
      ExtendedIsFirstFit(rest, hi, size);
      forall x: nat
        ensures Fits(rest, r.end, hi, size, x) <==>
                x >= rest[0].end && Fits(rest[1..], rest[0].end, hi, size, x) {
        FitsTail(rest, r.end, hi, size, x);
      }
    }
  }

  /** `vaddress_allocate` is lowest-address first fit and complete. */
  lemma AllocatedIsFirstFit(rs: seq<Span>, lo: nat, hi: nat, size: nat)
    requires Sorted(rs) && Tight(rs) && Within(rs, lo, hi) && lo <= hi && size > 0
    ensures var (f, _) := Allocated(rs, lo, hi, size);
      && (f.Some? ==>
            && Fits(rs, lo, hi, size, f.address)
            && forall x: nat :: x < f.address ==> !Fits(rs, lo, hi, size, x))
      && (f.None? ==> forall x: nat :: !Fits(rs, lo, hi, size, x))
  {
    assert lo <= GapEnd(rs, hi) <= hi;
    if GapEnd(rs, hi) - lo >= size {
      FitsFirst(rs, lo, hi, size, lo);
    } else if rs != [] {
      ExtendedIsFirstFit(rs, hi, size);
      forall x: nat ensures Fits(rs, lo, hi, size, x) <==> x >= rs[0].end && Fits(rs[1..], rs[0].end, hi, size, x) {
        FitsTail(rs, lo, hi, size, x);
      }
    }
  }

  /** NULL is returned exactly when no block fits. */
  ghost predicate NullMeansNone(rs: seq<Span>, lo: nat, hi: nat, size: nat) {
    Pointer(Allocated(rs, lo, hi, size).0) == 0 <==> forall x: nat :: !Fits(rs, lo, hi, size, x)
  }

  /** A pointer of 0 means that no block fits, except exactly when the block at address 0 itself was given out: the
      space begins there and the gap before the first region is large enough. */
  lemma NullExact(rs: seq<Span>, lo: nat, hi: nat, size: nat)
    requires Sorted(rs) && Tight(rs) && Within(rs, lo, hi) && lo <= hi && size > 0
    ensures NullMeansNone(rs, lo, hi, size) <==> !(lo == 0 && GapEnd(rs, hi) >= size)
  {
    AllocatedIsFirstFit(rs, lo, hi, size);
    if GapEnd(rs, hi) - lo < size { BehindARegion(rs, hi, size); }
    hide Fits, Tight, Sorted, Within, Extended;
  }

  /** What a pointer other than NULL means: the lowest block of this size in [lo, hi) clear of the list, and exactly its
      addresses are new in the list after. */
  ghost predicate HandsOut(rs: seq<Span>, after: seq<Span>, lo: nat, hi: nat, size: nat, p: nat) {
    && Fits(rs, lo, hi, size, p)
    && (forall x: nat :: x < p ==> !Fits(rs, lo, hi, size, x))
    && (forall y: nat :: Covers(after, y) <==> Covers(rs, y) || p <= y < p + size)
  }

  /** The same in words: the block at p is in [lo, hi), none of its addresses was covered, every lower place
      was blocked, and no other address is new. */
  lemma HandsOutMeans(rs: seq<Span>, after: seq<Span>, lo: nat, hi: nat, size: nat, p: nat, x: nat)
    requires HandsOut(rs, after, lo, hi, size, p)
    ensures lo <= p && p + size <= hi
    ensures p <= x < p + size ==> !Covers(rs, x) && Covers(after, x)
    ensures !(p <= x < p + size) ==> (Covers(after, x) <==> Covers(rs, x))
    ensures lo <= x < p ==> exists y: nat :: x <= y < x + size && Covers(rs, y)
  {
    if lo <= x < p { assert !Fits(rs, lo, hi, size, x); }
    hide Covers;
  }

  lemma PointerMeans(rs: seq<Span>, lo: nat, hi: nat, size: nat)
    requires Sorted(rs) && Tight(rs) && Within(rs, lo, hi) && lo <= hi && size > 0
    ensures var (found, after) := Allocated(rs, lo, hi, size);
      Pointer(found) != 0 ==> HandsOut(rs, after, lo, hi, size, Pointer(found))
  {
    hide Covers, Sorted, Tight, Within, Allocated, Fits;
    AllocatedIsFirstFit(rs, lo, hi, size);
    var (found, after) := Allocated(rs, lo, hi, size);
    if found.Some? {
      forall y: nat ensures Covers(after, y) <==> Covers(rs, y) || found.address <= y < found.address + size {
        AllocatedCovers(rs, lo, hi, size, y);
      }
    }
  }

  lemma {:induction false} BehindARegion(rs: seq<Span>, hi: nat, size: nat)
    requires Tight(rs)
    ensures Extended(rs, hi, size).0.Some? ==> Extended(rs, hi, size).0.address > 0
  {
    if rs != [] {
      assert Tight(rs[1..]) by {
        forall i | 0 <= i < |rs[1..]| ensures rs[1..][i].begin < rs[1..][i].end { assert rs[1..][i] == rs[i + 1]; }
      }
      BehindARegion(rs[1..], hi, size);
    }
  }

  /** An empty space from address 0 on: the first allocation takes its block and returns NULL. */
  lemma NullExample()
    ensures Allocated([], 0, 0x6000, 0x100) == (Some(0), [Span(0, 0x100)])
    ensures Pointer(Allocated([], 0, 0x6000, 0x100).0) == 0 && Fits([], 0, 0x6000, 0x100, 0)
  {
    assert [Span(0, 0x100)] + [] == [Span(0, 0x100)];
  }

  lemma {:induction false} ExtendedSorted(rs: seq<Span>, lo: nat, hi: nat, size: nat)
    requires Sorted(rs) && Within(rs, lo, hi)
    ensures var after := Extended(rs, hi, size).1; Sorted(after) && Within(after, lo, hi)
  {
    if rs != [] {
      var r, rest := rs[0], rs[1..];
      SortedTail(rs);
      assert Within(rest, r.end, hi) && lo <= r.begin <= r.end <= hi;
      if GapEnd(rest, hi) - r.end >= size {
        SortedFirst(rest, r.end + size);
        Prepend(Span(r.begin, r.end + size), rest, lo, r.end + size, hi);
      } else {
        ExtendedSorted(rest, r.end, hi, size);
        Prepend(r, Extended(rest, hi, size).1, lo, r.end, hi);
      }
    }
  }

  lemma {:induction false} ExtendedTight(rs: seq<Span>, hi: nat, size: nat)
    requires Tight(rs)
    ensures Tight(Extended(rs, hi, size).1)
  {
    if rs != [] {
      assert rs[0].begin < rs[0].end && Tight(rs[1..]);
      ExtendedTight(rs[1..], hi, size);
    }
  }

  /** What the list covers after an allocation: exactly the block besides what it covered before. */
  lemma {:induction false} ExtendedCovers(rs: seq<Span>, hi: nat, size: nat, x: nat)
    requires Sorted(rs)
    ensures var (f, after) := Extended(rs, hi, size);
      && (f.None? ==> after == rs)
      && (f.Some? ==> (Covers(after, x) <==> Covers(rs, x) || f.address <= x < f.address + size))
  {
    if rs != [] {
      var r, rest := rs[0], rs[1..];
      SortedTail(rs);
      assert r.begin <= r.end;
      CoversHead(rs, x);
      hide Covers, Sorted;
      if GapEnd(rest, hi) - r.end >= size {
        CoversCons(Span(r.begin, r.end + size), rest, x);
      } else {
        ExtendedCovers(rest, hi, size, x);
        CoversCons(r, Extended(rest, hi, size).1, x);
        assert [r] + rest == rs;
      }
    }
  }

  /** An allocation keeps the list in order and within the space. */
  lemma AllocatedSorted(rs: seq<Span>, lo: nat, hi: nat, size: nat)
    requires Sorted(rs) && Within(rs, lo, hi) && lo <= hi
    ensures var after := Allocated(rs, lo, hi, size).1; Sorted(after) && Within(after, lo, hi)
  {
    if GapEnd(rs, hi) - lo >= size {
      SortedFirst(rs, lo + size);
      Prepend(Span(lo, lo + size), rs, lo, lo + size, hi);
    } else {
      ExtendedSorted(rs, lo, hi, size);
    }
  }

  lemma AllocatedTight(rs: seq<Span>, lo: nat, hi: nat, size: nat)
    requires Tight(rs) && size > 0
    ensures Tight(Allocated(rs, lo, hi, size).1)
  {
    ExtendedTight(rs, hi, size);
  }

  /** An allocation adds exactly the block it returns to the covered addresses; without one nothing changes. */
  lemma AllocatedCovers(rs: seq<Span>, lo: nat, hi: nat, size: nat, x: nat)
    requires Sorted(rs)
    ensures var (f, after) := Allocated(rs, lo, hi, size);
      && (f.None? ==> after == rs)
      && (f.Some? ==> (Covers(after, x) <==> Covers(rs, x) || f.address <= x < f.address + size))
  {
    hide Covers, Extended, Sorted;
    CoversCons(Span(lo, lo + size), rs, x);
    ExtendedCovers(rs, hi, size, x);
  }

  // ------------------------------------------------------------------ round trips and runs

  /** A region starts exactly where the block that was allocated ends. */
  ghost predicate StartsAt(rs: seq<Span>, e: nat) {
    exists i :: 0 <= i < |rs| && rs[i].begin == e
  }

  /** A region that ends by a stays, and one that was extended from a to e shrinks back. */
  lemma FreedCons(r: Span, more: seq<Span>, a: nat, e: nat, line: Line164)
    requires r.begin < a <= e && (r.end <= a || r.end == e)
    ensures Freed([r] + more, a, e, line) == [if r.end <= a then r else Span(r.begin, a)] + Freed(more, a, e, line)
  {
  }

  /** Freeing [a, e) from `after` gives `rs` back; as written, if and only if no region of rs starts at e. */
  ghost predicate Restores(rs: seq<Span>, after: seq<Span>, a: nat, e: nat) {
    Freed(after, a, e, AsCommented) == rs && (Freed(after, a, e, AsWritten) == rs <==> !StartsAt(rs, e))
  }

  lemma RestoresCons(r: Span, rs: seq<Span>, more: Span, after: seq<Span>, a: nat, e: nat)
    requires r.begin < a <= e
    requires (more == r && r.end <= a) || (more == Span(r.begin, e) && r.end == a < e)
    ensures Restores(rs, after, a, e) ==> Restores([r] + rs, [more] + after, a, e)
  {
    FreedCons(more, after, a, e, AsWritten);
    FreedCons(more, after, a, e, AsCommented);
    StartsAtTail([r] + rs, e);
    assert ([r] + rs)[1..] == rs;
    TailEqual(r, Freed([more] + after, a, e, AsWritten), [r] + rs);
    hide Freed, StartsAt;
  }

  lemma RestoresAbove(rs: seq<Span>, a: nat, e: nat)
    ensures Sorted(rs) && Tight(rs) && a < e && (rs != [] ==> e <= rs[0].begin) ==> Restores(rs, rs, a, e)
  {
  }

  /** Freeing the block that `Extended` finds gives the list back. */
  ghost predicate ExtendedRestores(rs: seq<Span>, hi: nat, size: nat) {
    var (f, after) := Extended(rs, hi, size);
    f.Some? ==> rs != [] && f.address >= rs[0].end && Restores(rs, after, f.address, f.address + size)
  }

  lemma {:induction false} ExtendedFreed(rs: seq<Span>, hi: nat, size: nat)
    requires Sorted(rs) && Tight(rs) && size > 0
    ensures ExtendedRestores(rs, hi, size)
  {
    if rs != [] {
      SortedTail(rs);
      ExtendedFreed(rs[1..], hi, size);
      if GapEnd(rs[1..], hi) - rs[0].end >= size {
        RestoresHere(rs, hi, size);
      } else {
        RestoresLater(rs, hi, size);
      }
    }
    hide *;
  }

  lemma Tails(rs: seq<Span>)
    ensures rs != [] && Sorted(rs) && Tight(rs) ==> Sorted(rs[1..]) && Tight(rs[1..]) && rs[0].begin < rs[0].end
  {
  }

  lemma RestoresHere(rs: seq<Span>, hi: nat, size: nat)
    requires rs != [] && Sorted(rs) && Tight(rs) && size > 0 && GapEnd(rs[1..], hi) - rs[0].end >= size
    ensures ExtendedRestores(rs, hi, size)
  {
    hide Restores, Sorted, Tight;
    var r, rest, e := rs[0], rs[1..], rs[0].end + size;
    Tails(rs);
    RestoresAbove(rest, r.end, e);
    RestoresCons(r, rest, Span(r.begin, e), rest, r.end, e);
    assert [r] + rest == rs;
  }

  lemma RestoresLater(rs: seq<Span>, hi: nat, size: nat)
    requires rs != [] && Sorted(rs) && Tight(rs) && size > 0 && GapEnd(rs[1..], hi) - rs[0].end < size
    requires ExtendedRestores(rs[1..], hi, size)
    ensures ExtendedRestores(rs, hi, size)
  {
  }

  lemma TailEqual(r: Span, rs: seq<Span>, ss: seq<Span>)
    requires rs != [] && ss != [] && rs[0] == ss[0] == r
    ensures rs == ss <==> rs[1..] == ss[1..]
  {
  }

  lemma StartsAtTail(rs: seq<Span>, e: nat)
    requires rs != []
    ensures StartsAt(rs, e) <==> rs[0].begin == e || StartsAt(rs[1..], e)
  {
  }

  /** Freeing a block just allocated restores the list exactly; as written, if and only if no region starts where the
      block ends, which is the case when the block fills its gap. */
  lemma AllocateThenFree(rs: seq<Span>, lo: nat, hi: nat, size: nat)
    requires Sorted(rs) && Tight(rs) && Within(rs, lo, hi) && lo <= hi && size > 0
    ensures var (f, after) := Allocated(rs, lo, hi, size);
      f.Some? ==>
        && Freed(after, f.address, f.address + size, AsCommented) == rs
        && (Freed(after, f.address, f.address + size, AsWritten) == rs <==> !StartsAt(rs, f.address + size))
  {
    hide Sorted, Tight, Within, Freed, StartsAt;
    if GapEnd(rs, hi) - lo >= size {
      FrontFreed(rs, lo, hi, size, AsCommented);
      FrontFreed(rs, lo, hi, size, AsWritten);
      FrontAbove(rs, lo, hi, size);
    } else if Extended(rs, hi, size).0.Some? {
      ExtendedFreed(rs, hi, size);
    }
  }

  /** The block in front of the list is deleted whole. */
  lemma FrontFreed(rs: seq<Span>, lo: nat, hi: nat, size: nat, line: Line164)
    ensures Freed([Span(lo, lo + size)] + rs, lo, lo + size, line) == Freed(rs, lo, lo + size, line)
  {
  }

  lemma FrontAbove(rs: seq<Span>, lo: nat, hi: nat, size: nat)
    requires Sorted(rs) && Tight(rs) && size > 0 && GapEnd(rs, hi) >= lo + size
    ensures Freed(rs, lo, lo + size, AsCommented) == rs
    ensures Freed(rs, lo, lo + size, AsWritten) == rs <==> !StartsAt(rs, lo + size)
  {
  }

  datatype Request = Allocate(size: nat) | Free(address: nat, size: nat)

  function Served(rs: seq<Span>, lo: nat, hi: nat, q: Request, line: Line164): seq<Span> {
    match q
    case Allocate(size) => Allocated(rs, lo, hi, size).1
    case Free(address, size) => Freed(rs, address, address + size, line)
  }

  /** The list after a run of requests on an empty space. */
  function ServedAll(lo: nat, hi: nat, qs: seq<Request>, line: Line164): seq<Span> {
    if qs == [] then [] else Served(ServedAll(lo, hi, qs[..|qs| - 1], line), lo, hi, qs[|qs| - 1], line)
  }

  /** After any run, under either reading of line 164, the list is in address order, without overlap and inside the
      space. */
  lemma {:induction false} RunsStaySorted(lo: nat, hi: nat, qs: seq<Request>, line: Line164)
    requires lo <= hi
    ensures var rs := ServedAll(lo, hi, qs, line); Sorted(rs) && Within(rs, lo, hi)
  {
    if qs != [] {
      var before, q := qs[..|qs| - 1], qs[|qs| - 1];
      RunsStaySorted(lo, hi, before, line);
      var rs := ServedAll(lo, hi, before, line);
      if q.Allocate? {
        AllocatedSorted(rs, lo, hi, q.size);
      } else {
        FreedSorted(rs, q.address, q.address + q.size, line, lo, hi);
      }
    }
  }

  /** The block that request i of a run gets, if any. */
  function Block(lo: nat, hi: nat, qs: seq<Request>, line: Line164, i: nat): Found
    requires i < |qs| && qs[i].Allocate?
  {
    Allocated(ServedAll(lo, hi, qs[..i], line), lo, hi, qs[i].size).0
  }

  /** Address x was in a block given out by the run and in no range freed since. */
  ghost predicate Live(lo: nat, hi: nat, qs: seq<Request>, line: Line164, x: nat) {
    qs != [] &&
    var n := |qs| - 1;
    match qs[n]
    case Allocate(size) =>
      var f := Block(lo, hi, qs, line, n);
      Live(lo, hi, qs[..n], line, x) || (f.Some? && f.address <= x < f.address + size)
    case Free(address, size) => Live(lo, hi, qs[..n], line, x) && !(address <= x < address + size)
  }

  /** No call of the run takes the branch of line 164, unless that line does what its comment says. */
  ghost predicate Careful(lo: nat, hi: nat, qs: seq<Request>, line: Line164) {
    line.AsWritten? ==>
      forall i {:trigger qs[i]} :: 0 <= i < |qs| && qs[i].Free? ==>
        !ShiftsStart(ServedAll(lo, hi, qs[..i], line), qs[i].address, qs[i].address + qs[i].size)
  }

  lemma CarefulPrefix(lo: nat, hi: nat, qs: seq<Request>, line: Line164)
    requires Careful(lo, hi, qs, line) && qs != []
    ensures Careful(lo, hi, qs[..|qs| - 1], line)
    ensures line.AsWritten? && qs[|qs| - 1].Free? ==>
              var q := qs[|qs| - 1];
              !ShiftsStart(ServedAll(lo, hi, qs[..|qs| - 1], line), q.address, q.address + q.size)
  {
    var before := qs[..|qs| - 1];
    forall i | 0 <= i < |before| ensures qs[i] == before[i] && qs[..i] == before[..i] {}
    hide ShiftsStart, ServedAll;
  }

  /** Over every run the list covers exactly the addresses given out and not freed since. */
  lemma {:induction false} RunCovers(lo: nat, hi: nat, qs: seq<Request>, line: Line164, x: nat)
    requires lo <= hi && Careful(lo, hi, qs, line)
    ensures Covers(ServedAll(lo, hi, qs, line), x) <==> Live(lo, hi, qs, line, x)
  {
    if qs != [] {
      var before, q := qs[..|qs| - 1], qs[|qs| - 1];
      CarefulPrefix(lo, hi, qs, line);
      RunCovers(lo, hi, before, line, x);
      RunsStaySorted(lo, hi, before, line);
      var rs := ServedAll(lo, hi, before, line);
      hide Sorted, Covers, Allocated, Freed;
      if q.Allocate? {
        AllocatedCovers(rs, lo, hi, q.size, x);
      } else {
        FreedAsMeant(rs, q.address, q.address + q.size, line, x);
      }
    }
  }

  lemma FreedAsMeant(rs: seq<Span>, a: nat, e: nat, line: Line164, x: nat)
    requires Sorted(rs) && a <= e && (line.AsWritten? ==> !ShiftsStart(rs, a, e))
    ensures Covers(Freed(rs, a, e, line), x) <==> Covers(rs, x) && !(a <= x < e)
  {
    if line.AsWritten? {
      LiteralFreeExact(rs, a, e);
    } else {
      FreedCovers(rs, a, e, x);
    }
  }

  /** After every call of the run the list covers what it should. */
  ghost predicate AlwaysCovers(lo: nat, hi: nat, qs: seq<Request>, line: Line164) {
    forall i {:trigger qs[..i]} :: 0 <= i <= |qs| ==>
      forall x: nat :: Covers(ServedAll(lo, hi, qs[..i], line), x) <==> Live(lo, hi, qs[..i], line, x)
  }

  /** The list is right after every call if and only if the run is careful. */
  lemma RunCoversExact(lo: nat, hi: nat, qs: seq<Request>, line: Line164)
    requires lo <= hi
    ensures AlwaysCovers(lo, hi, qs, line) <==> Careful(lo, hi, qs, line)
  {
    hide ServedAll, Live, Covers, ShiftsStart;
    if Careful(lo, hi, qs, line) {
      forall i, x: nat | 0 <= i <= |qs|
        ensures Covers(ServedAll(lo, hi, qs[..i], line), x) <==> Live(lo, hi, qs[..i], line, x)
      {
        CarefulTake(lo, hi, qs, line, i);
        RunCovers(lo, hi, qs[..i], line, x);
      }
    } else {
      var i :| 0 <= i < |qs| && qs[i].Free?
               && ShiftsStart(ServedAll(lo, hi, qs[..i], line), qs[i].address, qs[i].address + qs[i].size);
      var x := CarelessLoses(lo, hi, qs, line, i);
    }
  }

  lemma CarefulTake(lo: nat, hi: nat, qs: seq<Request>, line: Line164, i: nat)
    requires Careful(lo, hi, qs, line) && i <= |qs|
    ensures Careful(lo, hi, qs[..i], line)
  {
    forall k | 0 <= k < i ensures qs[..i][k] == qs[k] && qs[..i][..k] == qs[..k] {}
    hide ShiftsStart, ServedAll;
  }

  /** A call of the literal code that takes the branch of line 164 leaves or makes the list wrong. */
  lemma CarelessLoses(lo: nat, hi: nat, qs: seq<Request>, line: Line164, i: nat) returns (x: nat)
    requires lo <= hi && line.AsWritten? && i < |qs| && qs[i].Free?
    requires ShiftsStart(ServedAll(lo, hi, qs[..i], line), qs[i].address, qs[i].address + qs[i].size)
    ensures !(Covers(ServedAll(lo, hi, qs[..i], line), x) <==> Live(lo, hi, qs[..i], line, x))
            || !(Covers(ServedAll(lo, hi, qs[..i + 1], line), x) <==> Live(lo, hi, qs[..i + 1], line, x))
  {
    hide Covers, Freed, ShiftsStart, Sorted, Within, ServedAll, Live;
    var rs, a, e := ServedAll(lo, hi, qs[..i], line), qs[i].address, qs[i].address + qs[i].size;
    RunsStaySorted(lo, hi, qs[..i], line);
    LiteralFreeExact(rs, a, e);
    x :| !(Covers(Freed(rs, a, e, AsWritten), x) <==> Covers(rs, x) && !(a <= x < e));
    AfterFree(lo, hi, qs, line, i, x);
  }

  lemma AfterFree(lo: nat, hi: nat, qs: seq<Request>, line: Line164, i: nat, x: nat)
    requires i < |qs| && qs[i].Free?
    ensures var rs, a, e := ServedAll(lo, hi, qs[..i], line), qs[i].address, qs[i].address + qs[i].size;
      && ServedAll(lo, hi, qs[..i + 1], line) == Freed(rs, a, e, line)
      && (Live(lo, hi, qs[..i + 1], line, x) <==> Live(lo, hi, qs[..i], line, x) && !(a <= x < e))
  {
    assert qs[..i + 1][..i] == qs[..i] && qs[..i + 1][i] == qs[i];
  }

  /** The calls of `test_vaddr` (src/kernel.c, lines 308-332): the three pointers and the lists they leave. None of them
      takes the branch of line 164. */
  lemma KernelSession(line: Line164)
    ensures var lo, hi := 0x600, 0x6000;
      && Served([], lo, hi, Allocate(0x100), line) == [Span(0x600, 0x700)]
      && Served([Span(0x600, 0x700)], lo, hi, Free(0x600, 0x100), line) == []
      && Served([Span(0x600, 0x700)], lo, hi, Allocate(0x80), line) == [Span(0x600, 0x780)]
      && Served([Span(0x600, 0x780)], lo, hi, Allocate(0x200), line) == [Span(0x600, 0x980)]
      && Served([Span(0x600, 0x980)], lo, hi, Free(0x620, 0x30), line) == [Span(0x600, 0x620), Span(0x650, 0x980)]
      && Served([Span(0x600, 0x620), Span(0x650, 0x980)], lo, hi, Free(0x680, 0xa0), line) ==
         [Span(0x600, 0x620), Span(0x650, 0x680), Span(0x720, 0x980)]
      && Served([Span(0x600, 0x620), Span(0x650, 0x680), Span(0x720, 0x980)], lo, hi, Free(0, 0x5000), line) == []
      && Pointer(Allocated([], lo, hi, 0x100).0) == 0x600
      && Pointer(Allocated([Span(0x600, 0x700)], lo, hi, 0x80).0) == 0x700
      && Pointer(Allocated([Span(0x600, 0x780)], lo, hi, 0x200).0) == 0x780
  {
    var r, s, t := Span(0x600, 0x620), Span(0x650, 0x680), Span(0x720, 0x980);
    assert [r, s, t][1..] == [s, t] && [s, t][1..] == [t] && [t][1..] == [];
    assert [r, Span(0x650, 0x980)][1..] == [Span(0x650, 0x980)] && [Span(0x650, 0x980)][1..] == [];
    assert Freed([Span(0x650, 0x980)], 0x680, 0x720, line) == [s, t];
    assert Freed([Span(0x600, 0x980)], 0x620, 0x650, line) == [r, Span(0x650, 0x980)];
  }

  /** Over every run with sizes above 0 and line 164 as commented, a block given out holds no live address. */
  lemma RunsGiveUnused(lo: nat, hi: nat, qs: seq<Request>, i: nat, x: nat)
    requires lo <= hi && forall k :: 0 <= k < |qs| && qs[k].Allocate? ==> qs[k].size > 0
    requires i < |qs| && qs[i].Allocate?
    ensures var f := Block(lo, hi, qs, AsCommented, i);
      f.Some? && f.address <= x < f.address + qs[i].size ==>
        lo <= x < hi && !Live(lo, hi, qs[..i], AsCommented, x)
  {
    var before := qs[..i];
    forall k | 0 <= k < |before| ensures before[k] == qs[k] {}
    RunsStaySorted(lo, hi, before, AsCommented);
    RunsStayTight(lo, hi, before);
    RunCovers(lo, hi, before, AsCommented, x);
    AllocatedIsFirstFit(ServedAll(lo, hi, before, AsCommented), lo, hi, qs[i].size);
    hide ServedAll, Live, Sorted, Tight, Allocated, Covers;
  }

  lemma NoneServed(lo: nat, hi: nat, line: Line164)
    ensures ServedAll(lo, hi, [], line) == [] && Sorted([]) && Within([], lo, hi)
  {
  }

  lemma NextServed(lo: nat, hi: nat, qs: seq<Request>, line: Line164, i: nat)
    requires i < |qs|
    ensures ServedAll(lo, hi, qs[..i + 1], line) == Served(ServedAll(lo, hi, qs[..i], line), lo, hi, qs[i], line)
  {
    assert qs[..i + 1][..i] == qs[..i];
  }

  /** A run never has more regions than calls. */
  lemma {:induction false} RunLength(lo: nat, hi: nat, qs: seq<Request>, line: Line164)
    requires lo <= hi
    ensures |ServedAll(lo, hi, qs, line)| <= |qs|
  {
    if qs != [] {
      var before, q := qs[..|qs| - 1], qs[|qs| - 1];
      RunLength(lo, hi, before, line);
      RunsStaySorted(lo, hi, before, line);
      var rs := ServedAll(lo, hi, before, line);
      if q.Allocate? {
        ExtendedLength(rs, hi, q.size);
      } else {
        FreedLength(rs, q.address, q.address + q.size, line);
      }
    }
  }

  lemma {:induction false} ExtendedLength(rs: seq<Span>, hi: nat, size: nat)
    ensures |Extended(rs, hi, size).1| == |rs|
  {
    if rs != [] { ExtendedLength(rs[1..], hi, size); }
  }

  /** With line 164 as commented and sizes above 0 there is never an empty region. */
  lemma {:induction false} RunsStayTight(lo: nat, hi: nat, qs: seq<Request>)
    requires forall i :: 0 <= i < |qs| && qs[i].Allocate? ==> qs[i].size > 0
    ensures Tight(ServedAll(lo, hi, qs, AsCommented))
  {
    if qs != [] {
      var before, q := qs[..|qs| - 1], qs[|qs| - 1];
      RunsStayTight(lo, hi, before);
      var rs := ServedAll(lo, hi, before, AsCommented);
      if q.Allocate? {
        AllocatedTight(rs, lo, hi, q.size);
      } else {
        FreedTight(rs, q.address, q.address + q.size);
      }
    }
  }

  /** As written, freeing leaves an empty region if and only if a region starts exactly where the freed range ends. */
  lemma {:induction false} LiteralTightExact(rs: seq<Span>, a: nat, e: nat)
    requires Sorted(rs) && Tight(rs) && a <= e
    ensures Tight(Freed(rs, a, e, AsWritten)) <==> !StartsAt(rs, e)
  {
    if rs != [] {
      Tails(rs);
      StartsAtTail(rs, e);
      if e < rs[0].begin {
        LaterStarts(rs, e);
      } else {
        LiteralTightExact(rs[1..], a, e);
        TightConcat(Cut(rs[0], a, e, AsWritten), Freed(rs[1..], a, e, AsWritten));
        CutTight(rs[0], a, e);
        FreedHead(rs, a, e, AsWritten);
      }
    }
    hide Sorted, Freed, StartsAt;
  }

  lemma LaterStarts(rs: seq<Span>, e: nat)
    requires Sorted(rs) && rs != [] && e < rs[0].begin
    ensures !StartsAt(rs, e)
  {
    SortedFirst(rs, rs[0].begin);
  }

  lemma TightConcat(rs: seq<Span>, ss: seq<Span>)
    ensures Tight(rs + ss) <==> Tight(rs) && Tight(ss)
  {
    var all := rs + ss;
    assert Tight(all) ==> forall i :: 0 <= i < |rs| ==> rs[i] == all[i] && all[i].begin < all[i].end;
    assert Tight(all) ==> forall i :: 0 <= i < |ss| ==>
      ss[i] == all[|rs| + i] && all[|rs| + i].begin < all[|rs| + i].end;
  }

  lemma CutTight(r: Span, a: nat, e: nat)
    requires r.begin < r.end && r.begin <= e && a <= e
    ensures Tight(Cut(r, a, e, AsWritten)) <==> r.begin != e
  {
    if r.begin == e { assert Cut(r, a, e, AsWritten)[0] == Span(e, e); }
  }
}
