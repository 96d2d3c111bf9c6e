/** How single entry updates move mappings, counts and views: the building blocks of every step. */
module CowEntries {
  import opened Options
  import opened Sv39
  import opened VmaList
  import opened SlotCounts
  import opened CowState

  // ----- who maps a frame

  lemma MapperIff(procs: map<nat, Proc>, f: nat, q: nat, u: nat)
    ensures (q, u) in Mappers(procs, f) <==> q in procs && u in procs[q].pt && procs[q].pt[u].ppn == f
  {
  }

  lemma MappersSet(procs: map<nat, Proc>, p: nat, v: nat, e: Pte, f: nat)
    requires p in procs && v !in procs[p].pt
    ensures Mappers(SetPte(procs, p, v, e), f) == Mappers(procs, f) + (if e.ppn == f then {(p, v)} else {})
    ensures (p, v) !in Mappers(procs, f)
  {
    var after := SetPte(procs, p, v, e);
    forall q: nat, u: nat ensures (q, u) in Mappers(after, f) <==> (q, u) in Mappers(procs, f) || (e.ppn == f && q == p && u == v) {
      MapperIff(after, f, q, u);
      MapperIff(procs, f, q, u);
    }
  }

  /** Changing an entry's permissions moves no mapping. */
  lemma MappersRemark(procs: map<nat, Proc>, p: nat, v: nat, e: Pte, f: nat)
    requires p in procs && v in procs[p].pt && e.ppn == procs[p].pt[v].ppn
    ensures Mappers(SetPte(procs, p, v, e), f) == Mappers(procs, f)
  {
    var after := SetPte(procs, p, v, e);
    forall q: nat, u: nat ensures (q, u) in Mappers(after, f) <==> (q, u) in Mappers(procs, f) {
      MapperIff(after, f, q, u);
      MapperIff(procs, f, q, u);
    }
  }

  lemma MappersClear(procs: map<nat, Proc>, p: nat, v: nat, f: nat)
    requires p in procs
    ensures Mappers(ClearPte(procs, p, v), f) == Mappers(procs, f) - {(p, v)}
  {
    var after := ClearPte(procs, p, v);
    forall q: nat, u: nat ensures (q, u) in Mappers(after, f) <==> (q, u) in Mappers(procs, f) && (q, u) != (p, v) {
      MapperIff(after, f, q, u);
      MapperIff(procs, f, q, u);
    }
  }

  lemma MappersVmas(procs: map<nat, Proc>, p: nat, vs: seq<Vma>, spare: nat, f: nat)
    requires p in procs
    ensures Mappers(SetAreas(procs, p, vs, spare), f) == Mappers(procs, f)
  {
    var after := SetAreas(procs, p, vs, spare);
    forall q: nat, u: nat ensures (q, u) in Mappers(after, f) <==> (q, u) in Mappers(procs, f) {
      MapperIff(after, f, q, u);
      MapperIff(procs, f, q, u);
    }
  }

  lemma MappersNewProc(procs: map<nat, Proc>, child: nat, vs: seq<Vma>, f: nat)
    requires child !in procs
    ensures Mappers(procs[child := Proc(vs, map[], 0)], f) == Mappers(procs, f)
  {
    var after := procs[child := Proc(vs, map[], 0)];
    forall q: nat, u: nat ensures (q, u) in Mappers(after, f) <==> (q, u) in Mappers(procs, f) {
      MapperIff(after, f, q, u);
      MapperIff(procs, f, q, u);
    }
  }

  /** Every frame keeps its count of references that no user entry accounts for. */
  ghost predicate SlackKept(st: State, st': State) {
    st'.count.Keys == st.count.Keys && forall f <- st.count :: Slack(st', f) == Slack(st, f)
  }

  /** The same, except that `frame` has been handed out by the allocator. */
  ghost predicate SlackKeptBut(st: State, st': State, frame: nat) {
    st'.count.Keys == st.count.Keys && forall f <- st.count :: f != frame ==> Slack(st', f) == Slack(st, f)
  }

  /** A frame with no reference is mapped nowhere. */
  lemma UncountedIsUnmapped(st: State, f: nat)
    requires Inv(st) && f in st.count && st.count[f] == 0
    ensures Mappers(st.procs, f) == {}
  {
    assert FrameOk(st, f);
  }

  /** A mapped frame is counted, and its mapping entry is one of its mappers. */
  lemma MappedFrame(st: State, p: nat, v: nat)
    requires Inv(st) && p in st.procs && v in st.procs[p].pt
    ensures var f := st.procs[p].pt[v].ppn;
      && (p, v) in Mappers(st.procs, f) && f in st.count && f in st.mem && |st.mem[f]| == PAGE
      && st.count[f] == |Mappers(st.procs, f)| && st.count[f] >= 1
  {
    var f := st.procs[p].pt[v].ppn;
    MapperIff(st.procs, f, p, v);
    assert FrameOk(st, f);
  }

  /** The only mapper of a frame counted once. */
  lemma SoleMapper(st: State, p: nat, v: nat)
    requires Inv(st) && p in st.procs && v in st.procs[p].pt && st.count.Keys >= {st.procs[p].pt[v].ppn}
    requires st.count[st.procs[p].pt[v].ppn] == 1
    ensures Mappers(st.procs, st.procs[p].pt[v].ppn) == {(p, v)}
  {
    MappedFrame(st, p, v);
    var s := Mappers(st.procs, st.procs[p].pt[v].ppn);
    assert |s - {(p, v)}| == 0;
  }

  // ----- dropping an entry

  lemma DropPageFrames(st: State, p: nat, v: nat)
    requires Inv(st) && p in st.procs && v in st.procs[p].pt
    ensures SlackKept(st, DropPage(st, p, v)) && forall g: nat :: FrameOk(DropPage(st, p, v), g)
  {
    hide Mappers, Unshared, ProcOk;
    var st' := DropPage(st, p, v);
    MappedFrame(st, p, v);
    forall g: nat ensures FrameOk(st', g) && (g in st.count ==> Slack(st', g) == Slack(st, g)) {
      MappersClear(st.procs, p, v, g);
      MapperIff(st.procs, g, p, v);
      assert FrameOk(st, g);
    }
  }

  lemma DropPageUnshared(st: State, p: nat, v: nat)
    requires Inv(st) && p in st.procs && v in st.procs[p].pt
    ensures var procs := DropPage(st, p, v).procs;
      forall q, u | q in procs && u in procs[q].pt :: Unshared(procs, q, u)
  {
    hide Mappers, FrameOk, ProcOk;
    var procs := DropPage(st, p, v).procs;
    forall q, u | q in procs && u in procs[q].pt ensures Unshared(procs, q, u) {
      assert Unshared(st.procs, q, u);
      MappersClear(st.procs, p, v, st.procs[q].pt[u].ppn);
    }
  }

  lemma DropPageProcs(st: State, p: nat, v: nat)
    requires Inv(st) && p in st.procs && v in st.procs[p].pt
    ensures var procs := DropPage(st, p, v).procs; forall q <- procs :: ProcOk(procs[q])
  {
    hide Mappers, FrameOk, Unshared, AreasOk, EntryOk;
    var procs := DropPage(st, p, v).procs;
    forall q | q in procs ensures ProcOk(procs[q]) { assert ProcOk(st.procs[q]); }
  }

  lemma DropPageInv(st: State, p: nat, v: nat)
    requires Inv(st) && p in st.procs
    ensures Inv(DropPage(st, p, v)) && SlackKept(st, DropPage(st, p, v))
  {
    hide Mappers, Slack, FrameOk, Unshared, ProcOk;
    if v in st.procs[p].pt {
      DropPageFrames(st, p, v);
      DropPageUnshared(st, p, v);
      DropPageProcs(st, p, v);
    }
  }

  // ----- adding an entry for a fresh frame

  /** The allocator hands out `frame`, it is filled, and entry v of process p, so far invalid, maps it. */
  function AddFresh(st: State, p: nat, v: nat, frame: nat, contents: Page, perm: Perm): State
    requires p in st.procs
  {
    st.(count := st.count[frame := 1], mem := st.mem[frame := contents], procs := SetPte(st.procs, p, v, Pte(frame, perm)))
  }

  lemma AddFreshFrames(st: State, p: nat, v: nat, frame: nat, contents: Page, perm: Perm)
    requires Inv(st) && p in st.procs && v !in st.procs[p].pt
    requires frame in st.count && st.count[frame] == 0 && Mappers(st.procs, frame) == {}
    ensures var st' := AddFresh(st, p, v, frame, contents, perm);
      SlackKeptBut(st, st', frame) && forall g: nat :: FrameOk(st', g)
  {
    hide Mappers, Unshared, ProcOk;
    var st' := AddFresh(st, p, v, frame, contents, perm);
    forall g: nat ensures FrameOk(st', g) && (g in st.count && g != frame ==> Slack(st', g) == Slack(st, g)) {
      MappersSet(st.procs, p, v, Pte(frame, perm), g);
      assert FrameOk(st, g);
    }
  }

  lemma AddFreshUnshared(st: State, p: nat, v: nat, frame: nat, perm: Perm)
    requires Inv(st) && p in st.procs && v !in st.procs[p].pt && Mappers(st.procs, frame) == {}
    ensures var procs := SetPte(st.procs, p, v, Pte(frame, perm));
      forall q, u | q in procs && u in procs[q].pt :: Unshared(procs, q, u)
  {
    hide Mappers, FrameOk, ProcOk;
    var procs := SetPte(st.procs, p, v, Pte(frame, perm));
    forall q, u | q in procs && u in procs[q].pt ensures Unshared(procs, q, u) {
      MappersSet(st.procs, p, v, Pte(frame, perm), procs[q].pt[u].ppn);
      if (q, u) != (p, v) {
        assert Unshared(st.procs, q, u);
        MapperIff(st.procs, frame, q, u);
      }
    }
  }

  lemma AddEntryProcs(st: State, p: nat, v: nat, e: Pte)
    requires Inv(st) && p in st.procs && EntryOk(st.procs[p].vmas, v, e)
    ensures var procs := SetPte(st.procs, p, v, e); forall q <- procs :: ProcOk(procs[q])
  {
    hide Mappers, FrameOk, Unshared, AreasOk, EntryOk;
    var procs := SetPte(st.procs, p, v, e);
    forall q | q in procs ensures ProcOk(procs[q]) { assert ProcOk(st.procs[q]); }
  }

  lemma AddFreshInv(st: State, p: nat, v: nat, frame: nat, contents: Page, perm: Perm)
    requires Inv(st) && p in st.procs && v !in st.procs[p].pt && |contents| == PAGE
    requires frame in st.count && st.count[frame] == 0 && EntryOk(st.procs[p].vmas, v, Pte(frame, perm))
    ensures Inv(AddFresh(st, p, v, frame, contents, perm))
    ensures SlackKeptBut(st, AddFresh(st, p, v, frame, contents, perm), frame)
  {
    hide Mappers, Slack, FrameOk, Unshared, ProcOk;
    UncountedIsUnmapped(st, frame);
    AddFreshFrames(st, p, v, frame, contents, perm);
    AddFreshUnshared(st, p, v, frame, perm);
    AddEntryProcs(st, p, v, Pte(frame, perm));
  }

  /** A fresh frame is nobody's page yet: filling it changes only the new entry's contents. */
  lemma AddFreshSeen(st: State, p: nat, v: nat, frame: nat, contents: Page, perm: Perm, q: nat)
    requires Inv(st) && p in st.procs && v !in st.procs[p].pt && frame in st.count && st.count[frame] == 0 && q in st.procs
    ensures var st' := AddFresh(st, p, v, frame, contents, perm);
      Seen(st'.procs[q], st'.mem) ==
        if q == p then Owner(st.procs[p].vmas, Seen(st.procs[p], st.mem).pages[v := contents]) else Seen(st.procs[q], st.mem)
  {
    hide Inv, Mappers;
    UncountedIsUnmapped(st, frame);
    var st' := AddFresh(st, p, v, frame, contents, perm);
    forall u | u in st.procs[q].pt ensures PageAt(st'.mem, st.procs[q].pt[u].ppn) == PageAt(st.mem, st.procs[q].pt[u].ppn) {
      MapperIff(st.procs, frame, q, u);
    }
  }

  // ----- changing the sharing marks of an entry

  function Mark(st: State, p: nat, v: nat, perm: Perm): State
    requires p in st.procs && v in st.procs[p].pt
  {
    st.(procs := SetPte(st.procs, p, v, Pte(st.procs[p].pt[v].ppn, perm)))
  }

  lemma MarkFrames(st: State, p: nat, v: nat, perm: Perm)
    requires Inv(st) && p in st.procs && v in st.procs[p].pt
    ensures SlackKept(st, Mark(st, p, v, perm)) && forall g: nat :: FrameOk(Mark(st, p, v, perm), g)
  {
    hide Mappers, Unshared, ProcOk;
    var st' := Mark(st, p, v, perm);
    forall g: nat ensures FrameOk(st', g) && (g in st.count ==> Slack(st', g) == Slack(st, g)) {
      MappersRemark(st.procs, p, v, Pte(st.procs[p].pt[v].ppn, perm), g);
      assert FrameOk(st, g);
    }
  }

  lemma MarkUnshared(st: State, p: nat, v: nat, perm: Perm)
    requires Inv(st) && p in st.procs && v in st.procs[p].pt
    requires !perm.s ==> Mappers(st.procs, st.procs[p].pt[v].ppn) == {(p, v)}
    ensures var procs := Mark(st, p, v, perm).procs;
      forall q, u | q in procs && u in procs[q].pt :: Unshared(procs, q, u)
  {
    hide Mappers, FrameOk, ProcOk;
    var procs := Mark(st, p, v, perm).procs;
    forall q, u | q in procs && u in procs[q].pt ensures Unshared(procs, q, u) {
      MappersRemark(st.procs, p, v, Pte(st.procs[p].pt[v].ppn, perm), procs[q].pt[u].ppn);
      assert Unshared(st.procs, q, u);
    }
  }

  lemma MarkInv(st: State, p: nat, v: nat, perm: Perm)
    requires Inv(st) && p in st.procs && v in st.procs[p].pt
    requires EntryOk(st.procs[p].vmas, v, Pte(st.procs[p].pt[v].ppn, perm))
    requires !perm.s ==> Mappers(st.procs, st.procs[p].pt[v].ppn) == {(p, v)}
    ensures Inv(Mark(st, p, v, perm)) && SlackKept(st, Mark(st, p, v, perm))
  {
    hide Mappers, Slack, FrameOk, Unshared, ProcOk;
    MarkFrames(st, p, v, perm);
    MarkUnshared(st, p, v, perm);
    AddEntryProcs(st, p, v, Pte(st.procs[p].pt[v].ppn, perm));
  }

  /** Marks are invisible to the process. */
  lemma MarkSeen(st: State, p: nat, v: nat, perm: Perm, q: nat)
    requires p in st.procs && v in st.procs[p].pt && q in st.procs
    ensures Seen(Mark(st, p, v, perm).procs[q], st.mem) == Seen(st.procs[q], st.mem)
  {
  }

  // ----- adding a second mapping of a shared frame

  /** All mappers of a frame that has a mapper marked S are marked S. */
  lemma SharedByAll(st: State, p: nat, v: nat, q: nat, u: nat)
    requires Inv(st) && p in st.procs && v in st.procs[p].pt && st.procs[p].pt[v].perm.s
    requires q in st.procs && u in st.procs[q].pt && st.procs[q].pt[u].ppn == st.procs[p].pt[v].ppn
    ensures st.procs[q].pt[u].perm.s
  {
    hide Mappers, FrameOk, ProcOk;
    MapperIff(st.procs, st.procs[p].pt[v].ppn, p, v);
    assert Unshared(st.procs, q, u);
  }

  /** Process c gets p's shared entry v, and the frame one more reference. */
  function AddShared(st: State, p: nat, c: nat, v: nat): State
    requires p in st.procs && c in st.procs && v in st.procs[p].pt
  {
    st.(procs := SetPte(st.procs, c, v, st.procs[p].pt[v]), count := Ref(st.count, st.procs[p].pt[v].ppn))
  }

  lemma AddSharedFrames(st: State, p: nat, c: nat, v: nat)
    requires Inv(st) && p in st.procs && c in st.procs && v in st.procs[p].pt && v !in st.procs[c].pt
    ensures var st' := AddShared(st, p, c, v);
      SlackKept(st, st') && st'.count.Keys == st.count.Keys && forall g: nat :: FrameOk(st', g)
  {
    hide Mappers, Unshared, ProcOk;
    var st' := AddShared(st, p, c, v);
    MappedFrame(st, p, v);
    forall g: nat ensures FrameOk(st', g) && (g in st.count ==> Slack(st', g) == Slack(st, g)) {
      MappersSet(st.procs, c, v, st.procs[p].pt[v], g);
      assert FrameOk(st, g);
    }
  }

  lemma AddSharedUnshared(st: State, p: nat, c: nat, v: nat)
    requires Inv(st) && p in st.procs && c in st.procs && v in st.procs[p].pt && v !in st.procs[c].pt
    requires st.procs[p].pt[v].perm.s
    ensures var procs := AddShared(st, p, c, v).procs;
      forall q, u | q in procs && u in procs[q].pt :: Unshared(procs, q, u)
  {
    hide Mappers, FrameOk, ProcOk;
    var procs := AddShared(st, p, c, v).procs;
    forall q, u | q in procs && u in procs[q].pt ensures Unshared(procs, q, u) {
      MappersSet(st.procs, c, v, st.procs[p].pt[v], procs[q].pt[u].ppn);
      if (q, u) != (c, v) {
        assert Unshared(st.procs, q, u);
        if st.procs[q].pt[u].ppn == st.procs[p].pt[v].ppn { SharedByAll(st, p, v, q, u); }
      }
    }
  }

  lemma AddSharedInv(st: State, p: nat, c: nat, v: nat)
    requires Inv(st) && p in st.procs && c in st.procs && v in st.procs[p].pt && v !in st.procs[c].pt
    requires st.procs[p].pt[v].perm.s && EntryOk(st.procs[c].vmas, v, st.procs[p].pt[v])
    ensures Inv(AddShared(st, p, c, v)) && SlackKept(st, AddShared(st, p, c, v))
  {
    hide Mappers, Slack, FrameOk, Unshared, ProcOk;
    AddSharedFrames(st, p, c, v);
    AddSharedUnshared(st, p, c, v);
    AddEntryProcs(st, c, v, st.procs[p].pt[v]);
  }
}
