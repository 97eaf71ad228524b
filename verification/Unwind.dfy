/**
 The personality routine of `raise-gcc.c` and the two phases of an unwind (section 1.6 of the
 Itanium C++ ABI: Exception Handling) over a stack of frames.
 */
module Unwind {
  import opened Bytes
  import opened Leb128
  import opened Lsda

  // ---------------------------------------------------------------------------
  // Matching an exception against a choice
  // ---------------------------------------------------------------------------

  /** The special exception ids and the `Is_Handled_By_Others` property of an id. */
  datatype Env = Env(allOthers: nat, others: nat, unhandledOthers: nat, foreign: nat, handledByOthers: nat -> bool)

  /** A propagated occurrence: an Ada one with its id, or a foreign one together with the
      choices its own language would accept. */
  datatype Occurrence = Ada(id: nat) | Foreign(accepts: nat -> bool)

  /** `is_handled_by` */
  function IsHandledBy(env: Env, exc: Occurrence, choice: nat): Match
  {
    if choice == env.allOthers then MatchHandler
    else match exc
      case Ada(id) =>
        if choice == env.unhandledOthers then MatchUnhandler
        else if choice == id || (choice == env.others && env.handledByOthers(id)) then MatchHandler
        else NoMatch
      case Foreign(accepts) =>
        if choice == env.others || choice == env.foreign || accepts(choice) then MatchHandler
        else NoMatch
  }

  /** `get_ttype_entry_for` */
  function TtypeEntry(mem: bytes, r: Region, filter: int): Option<nat>
  {
    var size :- SizeOf(r.ttypeEnc);
    if r.ttypes - filter * size < 0 then None
    else
      var w :- ReadEncoded(mem, r.ttypeEnc, r.ttypeBase, r.ttypes - filter * size);
      Some(w.val)
  }

  /** How a positive filter of the region matches; a forced unwind never matches. */
  function Matcher(mem: bytes, r: Region, env: Env, exc: Occurrence, forced: bool): int -> Match
  {
    filter =>
      if forced then NoMatch
      else match TtypeEntry(mem, r, filter)
           case None => NoEntry
           case Some(choice) => IsHandledBy(env, exc, choice)
  }

  // ---------------------------------------------------------------------------
  // Frames
  // ---------------------------------------------------------------------------

  /** A frame: its language-specific data (0 when it has none) and its instruction pointer. */
  datatype Frame = Frame(lsda: nat, regionStart: nat, bases: Bases, ip: nat, ipBefore: bool)

  /** `get_ip_from_context`: a return address is moved back into the call. */
  function CallPoint(f: Frame): nat
  {
    if f.ipBefore then f.ip else (f.ip + WORD - 1) % WORD
  }

  /** What the bytes of a frame's tables say: the call sites, and the filters of the chain
      behind each action offset. */
  datatype Tables = Tables(sites: seq<CallSite>, chains: map<nat, seq<int>>)

  /** A frame's byte tables are well formed and say `t`. */
  ghost predicate WellFormed(mem: bytes, f: Frame, t: Tables)
  {
    f.lsda != 0 ==>
      && RegionAt(mem, f.lsda, f.regionStart, f.bases).Some?
      && RegionTables(mem, RegionAt(mem, f.lsda, f.regionStart, f.bases).value, t)
  }

  ghost predicate RegionTables(mem: bytes, r: Region, t: Tables)
  {
    && TableAt(SitesOf(mem, r.siteEnc), r.sites, r.actions, t.sites)
    && SortedDisjoint(t.sites)
    && InAddressSpace(t.sites, r.base, r.lpBase)
    && forall s :: s in t.sites && s.lp != 0 && s.action != 0 ==>
         s.action in t.chains && ChainAt(ActionsOf(mem), r.actions + s.action - 1, t.chains[s.action])
  }

  // ---------------------------------------------------------------------------
  // The action for a frame
  // ---------------------------------------------------------------------------

  datatype Action =
    | Nothing
    | Cleanup(lp: nat)
    | Handler(lp: nat, filter: int)
    | Unhandler(lp: nat, filter: int)
    | Abort

  predicate Catches(a: Action)
  {
    a.Handler? || a.Unhandler?
  }

  function WithPad(d: Decision, lp: nat): Action
  {
    match d
    case DoNothing => Nothing
    case DoCleanup => Cleanup(lp)
    case DoHandle(f) => Handler(lp, f)
    case DoUnhandle(f) => Unhandler(lp, f)
    case DoAbort => Abort
  }

  /** The reference decision of a region: the covering call site; without a landing pad nothing,
      without an action only cleanups, otherwise what its chain calls for. */
  ghost function RegionAction(mem: bytes, r: Region, t: Tables, ip: nat, env: Env, exc: Occurrence, forced: bool): Action
  {
    match Covering(t.sites, r.base, ip)
    case None => Nothing
    case Some(s) =>
      if s.lp == 0 then Nothing
      else if s.action == 0 then Cleanup(r.lpBase + s.lp)
      else if s.action in t.chains then
        WithPad(Decide(t.chains[s.action], Matcher(mem, r, env, exc, forced)), r.lpBase + s.lp)
      else Nothing
  }

  ghost function FrameAction(mem: bytes, f: Frame, t: Tables, env: Env, exc: Occurrence, forced: bool): Action
    requires WellFormed(mem, f, t)
  {
    if f.lsda == 0 then Nothing
    else RegionAction(mem, RegionAt(mem, f.lsda, f.regionStart, f.bases).value, t, CallPoint(f), env, exc, forced)
  }

  /** `get_action_description_for`: the byte scan and the chain walk compute the reference
      decision. */
  method GetAction(mem: bytes, r: Region, ip: nat, env: Env, exc: Occurrence, forced: bool, ghost t: Tables) returns (a: Action)
    requires RegionTables(mem, r, t)
    ensures a == RegionAction(mem, r, t, ip, env, exc, forced)
  {
    hide TableAt, ChainAt, Decide, SitesOf, ActionsOf, Matcher;
    CoveringUnique(t.sites, r.base, ip);
    var found := FindSite(SitesOf(mem, r.siteEnc), r, ip, t.sites);
    if found.None? {
      return Nothing;
    }
    var s := found.value;
    var pad := if s.lp != 0 then (r.lpBase + s.lp) % WORD else 0;
    if pad == 0 {
      return Nothing;
    }
    if s.action == 0 {
      return Cleanup(pad);
    }
    var d := WalkChain(ActionsOf(mem), r.actions + s.action - 1, Matcher(mem, r, env, exc, forced), t.chains[s.action]);
    return WithPad(d, pad);
  }

  /** A forced unwind finds no handler in any frame. */
  lemma ForcedFindsNoHandler(mem: bytes, f: Frame, t: Tables, env: Env, exc: Occurrence)
    requires WellFormed(mem, f, t)
    ensures var a := FrameAction(mem, f, t, env, exc, true);
            a.Nothing? || a.Cleanup?
  {
    if f.lsda != 0 {
      var r := RegionAt(mem, f.lsda, f.regionStart, f.bases).value;
      var m := Matcher(mem, r, env, exc, true);
      forall x: int
        ensures !Hits(m, x)
      {
      }
    }
  }

  /** Handlers are found by positive filters. */
  lemma HandlerFilters(mem: bytes, f: Frame, t: Tables, env: Env, exc: Occurrence, forced: bool)
    requires WellFormed(mem, f, t)
    ensures var a := FrameAction(mem, f, t, env, exc, forced); Catches(a) ==> a.filter > 0
  {
    hide RegionAt, RegionTables, Matcher, Covering;
  }

  /** Every positive filter of the frame's chains has a readable type-table entry. */
  ghost predicate EntriesPresent(mem: bytes, r: Region, t: Tables)
  {
    forall a, i :: a in t.chains && 0 <= i < |t.chains[a]| && t.chains[a][i] > 0 ==>
      TtypeEntry(mem, r, t.chains[a][i]).Some?
  }

  lemma {:induction false} FirstHitIn(chain: seq<int>, matches: int -> Match)
    ensures var h := FirstHit(chain, matches); h.Some? ==> h.value in chain
    decreases |chain|
  {
    if chain != [] {
      FirstHitIn(chain[1..], matches);
    }
  }

  /** With all entries present the routine never aborts. */
  lemma EntriesPreventAbort(mem: bytes, f: Frame, t: Tables, env: Env, exc: Occurrence, forced: bool)
    requires WellFormed(mem, f, t)
    requires f.lsda != 0 ==> EntriesPresent(mem, RegionAt(mem, f.lsda, f.regionStart, f.bases).value, t)
    ensures !FrameAction(mem, f, t, env, exc, forced).Abort?
  {
    hide RegionAt, RegionTables, TtypeEntry, Covering;
    if f.lsda != 0 {
      var r := RegionAt(mem, f.lsda, f.regionStart, f.bases).value;
      var m := Matcher(mem, r, env, exc, forced);
      var c := Covering(t.sites, r.base, CallPoint(f));
      if c.Some? && c.value.action in t.chains {
        FirstHitIn(t.chains[c.value.action], m);
      }
    }
  }

  /** Without a type table the first positive filter makes it abort, unless the unwind is forced. */
  lemma OmittedTableAborts(mem: bytes, r: Region, env: Env, exc: Occurrence, filter: int)
    requires r.ttypeEnc == DW_EH_PE_OMIT
    ensures Matcher(mem, r, env, exc, false)(filter) == NoEntry && Matcher(mem, r, env, exc, true)(filter) == NoMatch
  {
  }

  // ---------------------------------------------------------------------------
  // Every layout has a frame
  // ---------------------------------------------------------------------------

  /** The chains behind the action offsets of `t` are among the printed ones. */
  ghost predicate ChainsOf(t: Tables, l: Layout)
    requires ChainsFit(l.chains)
  {
    forall a :: a in t.chains ==>
      exists k :: 0 <= k < |l.chains| && a == ChainOffset(l.chains, k) + 1 && t.chains[a] == l.chains[k]
  }

  /** Landing pads are counted from their own base if the frame has one, else from the region. */
  function PadBase(f: Frame, l: Layout): nat
  {
    if l.lpBase.Some? then l.lpBase.value else f.regionStart
  }

  /** The frame's data are the printed layout, and `t` is what it says. */
  ghost predicate Printed(mem: bytes, f: Frame, l: Layout, t: Tables)
  {
    && f.lsda != 0 && LayoutFits(l) && FieldAt(mem, f.lsda, LsdaBytes(l))
    && SortedDisjoint(l.sites) && InAddressSpace(l.sites, f.regionStart, PadBase(f, l))
    && t.sites == l.sites && ChainsOf(t, l)
    && forall s :: s in l.sites && s.lp != 0 && s.action != 0 ==> s.action in t.chains
  }

  /** Printed data make a well-formed frame, and filter `i` finds entry `i` of the type table. */
  lemma PrintedFrame(mem: bytes, f: Frame, l: Layout, t: Tables)
    requires Printed(mem, f, l, t)
    ensures WellFormed(mem, f, t)
    ensures var r := RegionAt(mem, f.lsda, f.regionStart, f.bases).value;
            && r.base == f.regionStart && r.lpBase == PadBase(f, l)
            && match l.types
               case None => r.ttypeEnc == DW_EH_PE_OMIT
               case Some(ts) => forall i :: 1 <= i <= |ts| ==> TtypeEntry(mem, r, i) == Some(ts[i - 1])
  {
    hide LsdaBytes, RegionAt, TableAt, SitesOf, SortedDisjoint, InAddressSpace, ChainAt, ActionsOf, TypeBytes, ChainsBytes, FieldAt, TtypeEntry, ChainsOf;
    RegionRoundTrip(mem, f.lsda, f.regionStart, f.bases, l);
    var r := RegionAt(mem, f.lsda, f.regionStart, f.bases).value;
    forall s | s in t.sites && s.lp != 0 && s.action != 0
      ensures s.action in t.chains && ChainAt(ActionsOf(mem), r.actions + s.action - 1, t.chains[s.action])
    {
      PrintedChain(mem, r.actions, l, t, s.action);
    }
    if l.types.Some? {
      var ts := l.types.value;
      forall i | 1 <= i <= |ts|
        ensures TtypeEntry(mem, r, i) == Some(ts[i - 1])
      {
        EntryReads(mem, r, ts, i);
      }
    }
  }

  lemma PrintedChain(mem: bytes, actions: nat, l: Layout, t: Tables, a: nat)
    requires ChainsFit(l.chains) && ChainsOf(t, l) && FieldAt(mem, actions, ChainsBytes(l.chains)) && a in t.chains && a > 0
    ensures ChainAt(ActionsOf(mem), actions + a - 1, t.chains[a])
  {
    hide ChainAt, ActionsOf, ChainsBytes, FieldAt;
    var k :| 0 <= k < |l.chains| && a == ChainOffset(l.chains, k) + 1 && t.chains[a] == l.chains[k];
    ChainsRoundTrip(mem, actions, l.chains, k);
  }

  lemma EntryReads(mem: bytes, r: Region, ts: seq<nat>, i: nat)
    requires r.ttypeEnc == DW_EH_PE_UDATA8 && r.ttypeBase == 0 && r.ttypes >= 8 * |ts|
    requires FieldAt(mem, r.ttypes - 8 * |ts|, TypeBytes(ts)) && 1 <= i <= |ts|
    requires forall j :: 0 <= j < |ts| ==> ts[j] < WORD
    ensures TtypeEntry(mem, r, i) == Some(ts[i - 1])
  {
    hide TypeBytes, Fixed, Encode, ReadEncoded, FieldAt;
    TypeEntryAt(mem, r.ttypes - 8 * |ts|, ts, i);
    assert r.ttypes - 8 * |ts| + 8 * (|ts| - i) == r.ttypes - i * 8;
    Udata8Reads(mem, r.ttypes - i * 8, ts[i - 1]);
  }

  // What a printed frame does --------------------------------------------------------

  /** The choices that take an occurrence. */
  ghost predicate Takes(env: Env, exc: Occurrence, choice: nat)
  {
    match exc
    case Ada(id) => choice in {env.allOthers, env.unhandledOthers, id} || (choice == env.others && env.handledByOthers(id))
    case Foreign(accepts) => choice in {env.allOthers, env.others, env.foreign} || accepts(choice)
  }

  /** Filter `x` is positive and its entry of the type table takes the occurrence. */
  ghost predicate TakenBy(types: seq<nat>, env: Env, exc: Occurrence, x: int)
  {
    1 <= x <= |types| && Takes(env, exc, types[x - 1])
  }

  /** A taking choice handles, except that the choice for unhandled occurrences only says so. */
  function TakingAction(env: Env, exc: Occurrence, choice: nat, pad: nat, x: int): Action
  {
    if exc.Ada? && choice == env.unhandledOthers && choice != env.allOthers then Unhandler(pad, x) else Handler(pad, x)
  }

  /** The printed types have an entry for every positive filter. */
  ghost predicate Typed(chain: seq<int>, types: seq<nat>)
  {
    forall x :: x in chain ==> x <= |types|
  }

  /** The call that is being unwound lies in the site: the instruction pointer itself, or the address
      before it when it is a return address. */
  ghost predicate CallIn(f: Frame, site: CallSite)
  {
    var past := if f.ipBefore then 0 else 1;
    f.regionStart + site.start + past <= f.ip < f.regionStart + site.start + site.len + past
  }

  /** What a chain calls for: the first filter whose entry takes the occurrence decides; without any,
      a zero filter means cleanup. */
  ghost predicate ChainDoes(chain: seq<int>, types: seq<nat>, env: Env, exc: Occurrence, pad: nat, act: Action)
  {
    && (forall k :: 0 <= k < |chain| && FirstTaken(chain, types, env, exc, k) ==>
          act == TakingAction(env, exc, types[chain[k] - 1], pad, chain[k]))
    && ((forall x :: x in chain ==> !TakenBy(types, env, exc, x)) ==> act == if 0 in chain then Cleanup(pad) else Nothing)
  }

  ghost predicate FirstTaken(chain: seq<int>, types: seq<nat>, env: Env, exc: Occurrence, k: nat)
    requires k < |chain|
  {
    TakenBy(types, env, exc, chain[k]) && forall j :: 0 <= j < k ==> !TakenBy(types, env, exc, chain[j])
  }

  /** A frame whose data are printed from a layout does what the layout says: a site without a landing
      pad nothing, one without an action only cleanups, otherwise what its chain calls for. */
  lemma PrintedSiteActs(mem: bytes, f: Frame, l: Layout, t: Tables, env: Env, exc: Occurrence, site: CallSite, types: seq<nat>)
    requires Printed(mem, f, l, t) && site in l.sites && CallIn(f, site) && l.types == Some(types)
    requires site.lp != 0 && site.action != 0 ==> Typed(t.chains[site.action], types)
    ensures WellFormed(mem, f, t)
    ensures var act, pad := FrameAction(mem, f, t, env, exc, false), PadBase(f, l) + site.lp;
            if site.lp == 0 then act == Nothing
            else if site.action == 0 then act == Cleanup(pad)
            else ChainDoes(t.chains[site.action], types, env, exc, pad, act)
  {
    hide LsdaBytes, RegionAt, TableAt, SitesOf, ChainAt, ActionsOf, TtypeEntry, LayoutFits, FieldAt, ChainsOf, Covering, Decide, ChainDoes, Typed;
    PrintedFrame(mem, f, l, t);
    var r := RegionAt(mem, f.lsda, f.regionStart, f.bases).value;
    CoveringUnique(l.sites, r.base, CallPoint(f));
    assert Covering(l.sites, r.base, CallPoint(f)) == Some(site);
    if site.lp != 0 && site.action != 0 {
      ChainActs(mem, r, env, exc, t.chains[site.action], types, PadBase(f, l) + site.lp);
    }
  }

  lemma ChainActs(mem: bytes, r: Region, env: Env, exc: Occurrence, chain: seq<int>, types: seq<nat>, pad: nat)
    requires Typed(chain, types) && forall i :: 1 <= i <= |types| ==> TtypeEntry(mem, r, i) == Some(types[i - 1])
    ensures ChainDoes(chain, types, env, exc, pad, WithPad(Decide(chain, Matcher(mem, r, env, exc, false)), pad))
  {
    hide Matcher, TakenBy, TakingAction, WithPad, Hits, Matched, TtypeEntry, FirstHit;
    var m := Matcher(mem, r, env, exc, false);
    forall x | x in chain
      ensures Hits(m, x) <==> TakenBy(types, env, exc, x)
      ensures TakenBy(types, env, exc, x) ==>
                m(x) != NoMatch && 1 <= x <= |types| && WithPad(Matched(m(x), x), pad) == TakingAction(env, exc, types[x - 1], pad, x)
    {
      FilterActs(mem, r, env, exc, x, types, pad);
    }
    FirstHitAt(chain, m);
    PadKept(pad);
    forall k | 0 <= k < |chain| && FirstTaken(chain, types, env, exc, k)
      ensures FirstHit(chain, m) == Some(chain[k])
    {
      assert chain[k] in chain && forall j :: 0 <= j < k ==> chain[j] in chain;
    }
  }

  lemma PadKept(pad: nat)
    ensures WithPad(DoCleanup, pad) == Cleanup(pad) && WithPad(DoNothing, pad) == Nothing
  {
  }

  /** One filter with its entry in the type table. */
  lemma FilterActs(mem: bytes, r: Region, env: Env, exc: Occurrence, x: int, types: seq<nat>, pad: nat)
    requires x <= |types| && forall i :: 1 <= i <= |types| ==> TtypeEntry(mem, r, i) == Some(types[i - 1])
    ensures var m := Matcher(mem, r, env, exc, false);
            && (Hits(m, x) <==> TakenBy(types, env, exc, x))
            && (TakenBy(types, env, exc, x) ==>
                  m(x) != NoMatch && 1 <= x <= |types| && WithPad(Matched(m(x), x), pad) == TakingAction(env, exc, types[x - 1], pad, x))
  {
    hide TtypeEntry;
  }

  /** In a forced unwind such a frame cleans up, when its site has a landing pad and either no action or a
      zero filter, and does nothing else. */
  lemma PrintedForced(mem: bytes, f: Frame, l: Layout, t: Tables, env: Env, exc: Occurrence, site: CallSite)
    requires Printed(mem, f, l, t) && site in l.sites && CallIn(f, site)
    ensures WellFormed(mem, f, t)
    ensures FrameAction(mem, f, t, env, exc, true)
         == if site.lp != 0 && (site.action == 0 || 0 in t.chains[site.action]) then Cleanup(PadBase(f, l) + site.lp) else Nothing
  {
    hide LsdaBytes, RegionAt, TableAt, SitesOf, ChainAt, ActionsOf, TtypeEntry, LayoutFits, FieldAt, ChainsOf, Covering, FirstHit;
    PrintedFrame(mem, f, l, t);
    var r := RegionAt(mem, f.lsda, f.regionStart, f.bases).value;
    CoveringUnique(l.sites, r.base, CallPoint(f));
    assert Covering(l.sites, r.base, CallPoint(f)) == Some(site);
    if site.lp != 0 && site.action != 0 {
      FirstHitAt(t.chains[site.action], Matcher(mem, r, env, exc, true));
    }
  }

  /** A frame does nothing for a call outside its sites. */
  lemma PrintedElsewhere(mem: bytes, f: Frame, l: Layout, t: Tables, env: Env, exc: Occurrence, forced: bool)
    requires Printed(mem, f, l, t) && 0 < f.ip < WORD && forall s :: s in l.sites ==> !CallIn(f, s)
    ensures WellFormed(mem, f, t) && FrameAction(mem, f, t, env, exc, forced) == Nothing
  {
    hide LsdaBytes, RegionAt, TableAt, SitesOf, ChainAt, ActionsOf, TtypeEntry, LayoutFits, FieldAt, ChainsOf, Covering, Decide;
    PrintedFrame(mem, f, l, t);
    CoveringUnique(l.sites, f.regionStart, CallPoint(f));
  }

  lemma {:induction false} FirstHitAt(chain: seq<int>, m: int -> Match)
    ensures forall k :: 0 <= k < |chain| && Hits(m, chain[k]) && (forall j :: 0 <= j < k ==> !Hits(m, chain[j])) ==>
              FirstHit(chain, m) == Some(chain[k])
    ensures (forall k :: 0 <= k < |chain| ==> !Hits(m, chain[k])) ==> FirstHit(chain, m) == None
    decreases |chain|
  {
    if chain != [] {
      FirstHitAt(chain[1..], m);
      assert forall k :: 1 <= k < |chain| ==> chain[1..][k - 1] == chain[k];
    }
  }

  /** The special ids are different objects. */
  ghost predicate DistinctIds(env: Env)
  {
    && env.allOthers !in {env.others, env.unhandledOthers, env.foreign}
    && env.others !in {env.unhandledOthers, env.foreign} && env.unhandledOthers != env.foreign
  }

  /** For any choice and any filter that a table in memory can hold, there is a frame whose one handler
      has that choice. "All others" catches everything; "others" every foreign occurrence, and an
      Ada one exactly when its id lets it; "unhandled others" is an unhandler for Ada occurrences;
      the foreign id catches every foreign occurrence. Any choice catches the Ada occurrence with
      its own id, and the foreign occurrences whose language accepts it, and nothing else. */
  lemma ChoiceFramesExist(env: Env, choice: nat, start: nat, pad: nat, n: nat) returns (mem: bytes, f: Frame, t: Tables)
    requires DistinctIds(env) && choice < WORD && 0 < pad && start + pad + 1 < WORD
    requires 1 <= n < 0x1000_0000_0000_0000
    ensures WellFormed(mem, f, t)
    ensures forall exc :: FrameAction(mem, f, t, env, exc, false) in {Handler(start + pad, n), Unhandler(start + pad, n), Nothing}
    ensures forall id :: FrameAction(mem, f, t, env, Ada(id), false) == Unhandler(start + pad, n) <==> choice == env.unhandledOthers
    ensures choice == env.allOthers ==> forall exc :: FrameAction(mem, f, t, env, exc, false) == Handler(start + pad, n)
    ensures choice == env.others ==>
              forall id :: id != choice ==>
                (FrameAction(mem, f, t, env, Ada(id), false) == Handler(start + pad, n) <==> env.handledByOthers(id))
    ensures choice !in {env.allOthers, env.others, env.unhandledOthers} ==>
              forall id :: FrameAction(mem, f, t, env, Ada(id), false) == Handler(start + pad, n) <==> id == choice
    ensures choice in {env.others, env.foreign} ==>
              forall accepts :: FrameAction(mem, f, t, env, Foreign(accepts), false) == Handler(start + pad, n)
    ensures choice !in {env.allOthers, env.others, env.foreign} ==>
              forall accepts: nat -> bool ::
                FrameAction(mem, f, t, env, Foreign(accepts), false) == if accepts(choice) then Handler(start + pad, n) else Nothing
  {
    hide WellFormed, FrameAction, Printed;
    var l, site, types;
    mem, f, t, l, site, types := OneHandlerFrame(choice, start, pad, n);
    PrintedFrame(mem, f, l, t);
    forall exc
      ensures FrameAction(mem, f, t, env, exc, false)
           == if Takes(env, exc, choice) then TakingAction(env, exc, choice, start + pad, n) else Nothing
    {
      PrintedSiteActs(mem, f, l, t, env, exc, site, types);
      assert t.chains[site.action][0] == n && TakenBy(types, env, exc, n) == Takes(env, exc, choice);
      assert Takes(env, exc, choice) ==> FirstTaken(t.chains[site.action], types, env, exc, 0);
    }
    forall accepts: nat -> bool | choice !in {env.allOthers, env.others, env.foreign}
      ensures FrameAction(mem, f, t, env, Foreign(accepts), false) == if accepts(choice) then Handler(start + pad, n) else Nothing
    {
      var exc := Foreign(accepts);
      assert FrameAction(mem, f, t, env, exc, false)
          == if Takes(env, exc, choice) then TakingAction(env, exc, choice, start + pad, n) else Nothing;
    }
  }

  /** A frame with one site, one filter and the same choice in every entry of its type table. */
  lemma OneHandlerFrame(choice: nat, start: nat, pad: nat, n: nat)
      returns (mem: bytes, f: Frame, t: Tables, l: Layout, site: CallSite, types: seq<nat>)
    requires choice < WORD && 0 < pad && start + pad + 1 < WORD && 1 <= n < 0x1000_0000_0000_0000
    ensures Printed(mem, f, l, t) && site in l.sites && CallIn(f, site) && l.types == Some(types)
    ensures site.lp == pad && site.action != 0 && site.action in t.chains && t.chains[site.action] == [n]
    ensures |types| == n && types[n - 1] == choice && PadBase(f, l) == start
  {
    hide LsdaBytes;
    site, types := CallSite(0, 1, pad, 1), seq(n, i => choice);
    l := Layout(None, [site], [[n]], Some(types));
    f := Frame(1, start, Bases(0, 0, 0), start, true);
    t := Tables([site], map[1 := [n]]);
    SmallLayout(l, site, n, types);
    mem := [0] + LsdaBytes(l);
    assert FieldAt(mem, 1, LsdaBytes(l)) by { assert mem[1..] == LsdaBytes(l); }
    hide LayoutFits;
    assert ChainOffset(l.chains, 0) == 0;
  }

  /** For any exception and any filter that a table in memory can hold, there is a frame whose
      handler is found by that filter. */
  lemma HandlerFramesExist(env: Env, id: nat, start: nat, pad: nat, n: nat) returns (mem: bytes, f: Frame, t: Tables)
    requires id < WORD && id != env.unhandledOthers && 0 < pad && start + pad + 1 < WORD
    requires 1 <= n < 0x1000_0000_0000_0000
    ensures WellFormed(mem, f, t) && FrameAction(mem, f, t, env, Ada(id), false) == Handler(start + pad, n)
  {
    hide WellFormed, FrameAction, Printed;
    var l, site, types;
    mem, f, t, l, site, types := OneHandlerFrame(id, start, pad, n);
    PrintedSiteActs(mem, f, l, t, env, Ada(id), site, types);
    assert t.chains[site.action][0] == n && FirstTaken(t.chains[site.action], types, env, Ada(id), 0);
  }

  lemma SmallLayout(l: Layout, site: CallSite, n: nat, types: seq<nat>)
    requires site.start < WORD && site.len < WORD && site.lp < WORD && site.action < WORD
    requires n < 0x1000_0000_0000_0000 && |types| == n && forall i :: 0 <= i < n ==> types[i] < WORD
    requires l == Layout(None, [site], [[n]], Some(types))
    ensures LayoutFits(l)
  {
    hide EncodeU, EncodeS, FieldAt;
    ShortU(site.start);
    ShortU(site.len);
    ShortU(site.lp);
    ShortU(site.action);
    var table, chain := TableBytes(l.sites), ChainsBytes(l.chains);
    assert l.sites[1..] == [] && l.chains[1..] == [];
    OneSite(site);
    assert |SiteBytes(site)| == |EncodeU(site.start)| + |EncodeU(site.len)| + |EncodeU(site.lp)| + |EncodeU(site.action)|;
    ShortU(|table|);
    OneChain(n);
    ShortS(n);
    assert |BodyBytes(l.sites, l.chains)| == 1 + |EncodeU(|table|)| + |table| + |chain|;
  }

  lemma OneChain(n: int)
    ensures |ChainsBytes([[n]])| == |EncodeS(n)| + 1
  {
    hide EncodeS;
    var c: seq<int> := [n];
    assert [c][1..] == [] && ChainBytes(c) == EncodeS(n) + [0];
    assert ChainsBytes([c]) == ChainBytes(c) + ChainsBytes([c][1..]);
  }

  lemma OneSite(site: CallSite)
    ensures TableBytes([site]) == SiteBytes(site)
  {
    hide SiteBytes;
    var sites := [site];
    assert sites[0] == site && sites[1..] == [];
    assert TableBytes(sites) == SiteBytes(sites[0]) + TableBytes(sites[1..]);
  }

  lemma ShortU(x: nat)
    requires x < WORD
    ensures |EncodeU(x)| <= 10
  {
    hide EncodeU;
    assert FieldAt(EncodeU(x), 0, EncodeU(x));
    UlebRoundTrip(EncodeU(x), 0, x);
  }

  lemma ShortS(x: int)
    requires -MAX_I64 <= x < MAX_I64
    ensures |EncodeS(x)| <= 10
  {
    hide EncodeS;
    assert FieldAt(EncodeS(x), 0, EncodeS(x));
    SlebRoundTrip(EncodeS(x), 0, x);
  }

  // ---------------------------------------------------------------------------
  // The personality routine
  // ---------------------------------------------------------------------------

  datatype Code = ContinueUnwind | HandlerFound | Install(lp: nat, filter: int) | Aborts

  /** The conversion to `int` in the call of `setup_to_install`. */
  function Narrow(filter: int): (r: int)
    ensures -0x8000_0000 <= r < 0x8000_0000
  {
    (filter + 0x8000_0000) % 0x1_0000_0000 - 0x8000_0000
  }

  /** A handler is entered with the filter it was found by exactly below 2^31; a multiple of 2^32
      arrives as the cleanup value. */
  lemma NarrowKeepsIff(filter: int)
    requires filter > 0
    ensures Narrow(filter) == filter <==> filter < 0x8000_0000
    ensures Narrow(filter) == 0 <==> filter % 0x1_0000_0000 == 0
  {
  }

  /** There is a frame whose handler is found by filter 2^32 and entered as a cleanup. */
  lemma HandlerEnteredAsCleanup(env: Env, id: nat, start: nat, pad: nat) returns (mem: bytes, f: Frame, t: Tables)
    requires id < WORD && id != env.unhandledOthers && 0 < pad && start + pad + 1 < WORD
    ensures WellFormed(mem, f, t)
    ensures var a := FrameAction(mem, f, t, env, Ada(id), false);
            Catches(a) && Answer(a, true) == HandlerFound && Answer(a, false) == Install(start + pad, 0)
  {
    hide WellFormed, FrameAction;
    mem, f, t := HandlerFramesExist(env, id, start, pad, 0x1_0000_0000);
    NarrowKeepsIff(0x1_0000_0000);
  }

  ghost function Answer(a: Action, search: bool): Code
  {
    match a
    case Nothing => ContinueUnwind
    case Cleanup(lp) => if search then ContinueUnwind else Install(lp, 0)
    case Handler(lp, f) => if search then HandlerFound else Install(lp, Narrow(f))
    case Unhandler(lp, f) => if search then HandlerFound else Install(lp, Narrow(f))
    case Abort => Aborts
  }

  /** `personality_body` */
  method Personality(mem: bytes, f: Frame, env: Env, exc: Occurrence, search: bool, forced: bool, ghost t: Tables) returns (c: Code)
    requires WellFormed(mem, f, t)
    ensures c == Answer(FrameAction(mem, f, t, env, exc, forced), search)
  {
    hide RegionTables, RegionAction, RegionAt;
    if f.lsda == 0 {
      return ContinueUnwind;
    }
    var r := RegionAt(mem, f.lsda, f.regionStart, f.bases).value;
    var a := GetAction(mem, r, CallPoint(f), env, exc, forced, t);
    if a.Abort? {
      return Aborts;
    }
    if a.Nothing? {
      return ContinueUnwind;
    }
    if search {
      return if a.Cleanup? then ContinueUnwind else HandlerFound;
    }
    return Install(a.lp, if a.Cleanup? then Narrow(0) else Narrow(a.filter));
  }

  // ---------------------------------------------------------------------------
  // Whole unwinds
  // ---------------------------------------------------------------------------

  ghost predicate AllWellFormed(mem: bytes, fs: seq<Frame>, ts: seq<Tables>)
  {
    |ts| == |fs| && forall i :: 0 <= i < |fs| ==> WellFormed(mem, fs[i], ts[i])
  }

  /** Landing pads entered, in order: frame, address and filter. */
  datatype Entered = Entered(frame: nat, lp: nat, filter: int)

  /** The cleanups of the frames below `k` in an unwind that takes action `act(i)` at frame i. */
  ghost function Cleanups(act: nat -> Action, k: nat): seq<Entered>
  {
    if k == 0 then []
    else Cleanups(act, k - 1) + (if act(k - 1).Cleanup? then [Entered(k - 1, act(k - 1).lp, 0)] else [])
  }

  ghost function Actions(mem: bytes, fs: seq<Frame>, ts: seq<Tables>, env: Env, exc: Occurrence, forced: bool): nat -> Action
    requires AllWellFormed(mem, fs, ts)
  {
    (i: nat) => if i < |fs| then FrameAction(mem, fs[i], ts[i], env, exc, forced) else Nothing
  }

  /** The search phase does not go on past this frame. */
  predicate Stops(a: Action)
  {
    Catches(a) || a.Abort?
  }

  datatype Outcome = EndOfStack | Caught(frame: nat, entered: seq<Entered>) | Aborted(frame: nat)

  /** The search phase: the innermost frame that catches, or on which the routine aborts. */
  method Search(mem: bytes, fs: seq<Frame>, env: Env, exc: Occurrence, ghost ts: seq<Tables>) returns (k: nat, aborted: bool)
    requires AllWellFormed(mem, fs, ts)
    ensures k <= |fs|
    ensures forall i: nat :: i < k ==> !Stops(Actions(mem, fs, ts, env, exc, false)(i))
    ensures k < |fs| ==> Stops(Actions(mem, fs, ts, env, exc, false)(k))
    ensures aborted <==> k < |fs| && Actions(mem, fs, ts, env, exc, false)(k).Abort?
  {
    hide WellFormed, FrameAction;
    k, aborted := 0, false;
    while k < |fs|
      invariant k <= |fs| && !aborted
      invariant forall i: nat :: i < k ==> !Stops(Actions(mem, fs, ts, env, exc, false)(i))
    {
      var c := Personality(mem, fs[k], env, exc, true, false, ts[k]);
      if c.HandlerFound? || c.Aborts? {
        aborted := c.Aborts?;
        return;
      }
      k := k + 1;
    }
  }

  /** `_Unwind_RaiseException` over this personality. If the search phase finds a handler first
      at frame k, the cleanup phase enters exactly the cleanups of the frames before k, all
      with filter 0, and then at k the very landing pad that the search found, with the same
      filter exactly when it is below 2^31. No cleanup is entered when the search aborts. */
  method Raise(mem: bytes, fs: seq<Frame>, env: Env, exc: Occurrence, ghost ts: seq<Tables>) returns (o: Outcome)
    requires AllWellFormed(mem, fs, ts)
    ensures var act := Actions(mem, fs, ts, env, exc, false);
            match o
            case EndOfStack => forall i: nat :: i < |fs| ==> !Stops(act(i))
            case Aborted(k) => k < |fs| && act(k).Abort? && forall i: nat :: i < k ==> !Stops(act(i))
            case Caught(k, entered) =>
              && k < |fs| && Catches(act(k)) && (forall i: nat :: i < k ==> !Stops(act(i)))
              && entered == Cleanups(act, k) + [Entered(k, act(k).lp, Narrow(act(k).filter))]
              && (entered[|entered| - 1].filter == act(k).filter <==> act(k).filter < 0x8000_0000)
  {
    hide WellFormed, FrameAction;
    ghost var act := Actions(mem, fs, ts, env, exc, false);
    var k, aborted := Search(mem, fs, env, exc, ts);
    if k == |fs| {
      return EndOfStack;
    }
    if aborted {
      return Aborted(k);
    }
    var entered: seq<Entered> := [];
    var i: nat := 0;
    while i < k
      invariant i <= k
      invariant entered == Cleanups(act, i)
    {
      var c := Personality(mem, fs[i], env, exc, false, false, ts[i]);
      assert c == Answer(act(i), false) && !Stops(act(i));
      if c.Install? {
        entered := entered + [Entered(i, c.lp, c.filter)];
      }
      i := i + 1;
    }
    var c := Personality(mem, fs[k], env, exc, false, false, ts[k]);
    assert c == Answer(act(k), false);
    HandlerFilters(mem, fs[k], ts[k], env, exc, false);
    NarrowKeepsIff(act(k).filter);
    return Caught(k, entered + [Entered(k, c.lp, c.filter)]);
  }

  /** A forced unwind runs through the whole stack and enters cleanups only. */
  method ForcedUnwind(mem: bytes, fs: seq<Frame>, env: Env, exc: Occurrence, ghost ts: seq<Tables>) returns (entered: seq<Entered>)
    requires AllWellFormed(mem, fs, ts)
    ensures entered == Cleanups(Actions(mem, fs, ts, env, exc, true), |fs|)
    ensures forall e :: e in entered ==> e.filter == 0
  {
    hide WellFormed, FrameAction;
    ghost var act := Actions(mem, fs, ts, env, exc, true);
    entered := [];
    var i: nat := 0;
    while i < |fs|
      invariant i <= |fs|
      invariant entered == Cleanups(act, i)
      invariant forall e :: e in entered ==> e.filter == 0
    {
      var c := Personality(mem, fs[i], env, exc, false, true, ts[i]);
      ForcedFindsNoHandler(mem, fs[i], ts[i], env, exc);
      assert c == Answer(act(i), false);
      if c.Install? {
        entered := entered + [Entered(i, c.lp, c.filter)];
      }
      i := i + 1;
    }
  }
}
