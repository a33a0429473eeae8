/**
 * The list building of `Presentation.verify`: the revocation registry definitions
 * become a list of handles, and every registry state supplied for a definition
 * becomes a revocation entry that points at that definition by its position in
 * the list.
 */
module PresentationVerify {
  import opened Wrappers
  import opened Engine
  import opened Dicts
  import opened Presentation

  /** A loaded revocation registry definition: its `id` attribute and its handle. */
  datatype RegistryDefinition = RegistryDefinition(id: string, handle: Handle)

  /** `bindings.RevocationEntry.create(def_idx, entry.handle, timestamp)` */
  datatype RevocationEntry = RevocationEntry(defIdx: nat, entry: Handle, timestamp: int)

  /** `rev_reg_entries`: definition id -> timestamp -> registry state, in insertion order. */
  type RegistryStates = Dict<string, Dict<int, Handle>>

  /** The arguments of `bindings.verify_presentation`, in the order the wrapper passes them. */
  datatype VerifyCall = VerifyCall(
    presentation: Handle,
    presReq: Handle,
    schemas: seq<Handle>,
    credDefs: seq<Handle>,
    regDefs: seq<Handle>,
    regEntries: Option<seq<RevocationEntry>>)

  ghost predicate StatesValid(states: Option<RegistryStates>) {
    states.Some? ==> states.value.Valid() && forall id | id in states.value.items :: states.value.items[id].Valid()
  }

  /** The guard `rev_reg_entries and reg_def_id in rev_reg_entries`. */
  predicate HasStates(states: Option<RegistryStates>, id: string) {
    states.Some? && |states.value.keys| > 0 && id in states.value.items
  }

  /** The states `verify` walks for definition id `id`: none unless the guard holds. */
  function StatesFor(states: Option<RegistryStates>, id: string): (r: Dict<int, Handle>)
    requires StatesValid(states)
    ensures r.Valid()
    ensures HasStates(states, id) ==> r == states.value.items[id]
    ensures !HasStates(states, id) ==> r.keys == [] && r.items == map[]
  {
    if HasStates(states, id) then states.value.items[id] else Empty()
  }

  /** The entries for the timestamps `ts` of one definition at position `pos`, in order. */
  function TimestampEntries(pos: nat, byTime: Dict<int, Handle>, ts: seq<int>): (es: seq<RevocationEntry>)
    requires forall t | t in ts :: t in byTime.items
    decreases |ts|
  {
    if ts == [] then []
    else
      var t := Last(ts);
      assert t in ts;
      TimestampEntries(pos, byTime, Init(ts)) + [RevocationEntry(pos, byTime.items[t], t)]
  }

  /** The entries contributed by the definition at position `pos`. */
  function DefinitionEntries(pos: nat, id: string, states: Option<RegistryStates>): (es: seq<RevocationEntry>)
    requires StatesValid(states)
  {
    var byTime := StatesFor(states, id);
    TimestampEntries(pos, byTime, byTime.keys)
  }

  /** All entries `verify` builds for the definitions `defs`, definition by definition. */
  function RevocationEntries(defs: seq<RegistryDefinition>, states: Option<RegistryStates>): (es: seq<RevocationEntry>)
    requires StatesValid(states)
    decreases |defs|
  {
    if defs == [] then []
    else RevocationEntries(Init(defs), states) + DefinitionEntries(|defs| - 1, Last(defs).id, states)
  }

  function DefinitionHandles(defs: seq<RegistryDefinition>): (hs: seq<Handle>) {
    seq(|defs|, k requires 0 <= k < |defs| => defs[k].handle)
  }

  /**
   * `Presentation.verify`: the definitions in the order given, and for each one
   * whose id has registry states, one entry per timestamp tagged with the
   * definition's position; an empty entry list is passed on as `None`.
   */
  method Verify(presentation: Handle, presReq: Handle, schemas: seq<Handle>, credDefs: seq<Handle>,
                revRegDefs: seq<RegistryDefinition>, revRegEntries: Option<RegistryStates>)
    returns (call: VerifyCall)
    requires StatesValid(revRegEntries)
    ensures call.presentation == presentation && call.presReq == presReq
    ensures call.schemas == schemas && call.credDefs == credDefs
    ensures call.regDefs == DefinitionHandles(revRegDefs)
    ensures var es := RevocationEntries(revRegDefs, revRegEntries);
      call.regEntries == if es == [] then None else Some(es)
  {
    var regDefs: seq<Handle> := [];
    var regEntries: seq<RevocationEntry> := [];
    var i := 0;
    while i < |revRegDefs|
      invariant 0 <= i <= |revRegDefs|
      invariant regDefs == DefinitionHandles(revRegDefs[..i])
      invariant regEntries == RevocationEntries(revRegDefs[..i], revRegEntries)
    {
      var regDef := revRegDefs[i];
      if HasStates(revRegEntries, regDef.id) {
        regEntries := AppendTimestampEntries(|regDefs|, revRegEntries.value.items[regDef.id], regEntries);
      }
      RevocationEntriesStep(revRegDefs, revRegEntries, i);
      regDefs := regDefs + [regDef.handle];
      i := i + 1;
    }
    assert revRegDefs[..i] == revRegDefs;
    call := VerifyCall(presentation, presReq, schemas, credDefs, regDefs,
                       if regEntries == [] then None else Some(regEntries));
  }

  /**
   * The inner loop of `Presentation.verify`: one entry per timestamp of one
   * definition's states, in insertion order, tagged with the definition's position.
   */
  method AppendTimestampEntries(pos: nat, byTime: Dict<int, Handle>, regEntries0: seq<RevocationEntry>)
    returns (regEntries: seq<RevocationEntry>)
    requires byTime.Valid()
    ensures regEntries == regEntries0 + TimestampEntries(pos, byTime, byTime.keys)
  {
    regEntries := regEntries0;
    var j := 0;
    assert byTime.keys[..0] == [];
    while j < |byTime.keys|
      invariant 0 <= j <= |byTime.keys|
      invariant regEntries == regEntries0 + TimestampEntries(pos, byTime, byTime.keys[..j])
    {
      var timestamp := byTime.keys[j];
      var entry := byTime.items[timestamp];
      regEntries := regEntries + [RevocationEntry(pos, entry, timestamp)];
      TimestampEntriesStep(regEntries0, pos, byTime, j);
      j := j + 1;
    }
    assert byTime.keys[..j] == byTime.keys;
  }

  lemma TimestampEntriesStep(before: seq<RevocationEntry>, pos: nat, byTime: Dict<int, Handle>, j: nat)
    requires byTime.Valid() && j < |byTime.keys|
    ensures before + TimestampEntries(pos, byTime, byTime.keys[..j + 1])
         == before + TimestampEntries(pos, byTime, byTime.keys[..j]) + [RevocationEntry(pos, byTime.items[byTime.keys[j]], byTime.keys[j])]
  {
    assert Init(byTime.keys[..j + 1]) == byTime.keys[..j];
  }

  lemma RevocationEntriesStep(defs: seq<RegistryDefinition>, states: Option<RegistryStates>, i: nat)
    requires StatesValid(states) && i < |defs|
    ensures RevocationEntries(defs[..i + 1], states)
         == RevocationEntries(defs[..i], states) + DefinitionEntries(i, defs[i].id, states)
    ensures DefinitionHandles(defs[..i + 1]) == DefinitionHandles(defs[..i]) + [defs[i].handle]
    ensures |DefinitionHandles(defs[..i])| == i
  {
    assert Init(defs[..i + 1]) == defs[..i];
  }

  // ---------------------------------------------------------------------------
  // Lemmas about Verify's output
  // ---------------------------------------------------------------------------

  /** What `TimestampEntries` lists: one entry per timestamp, in the order given. */
  lemma {:induction false} TimestampEntriesShape(pos: nat, byTime: Dict<int, Handle>, ts: seq<int>)
    requires forall t | t in ts :: t in byTime.items
    ensures |TimestampEntries(pos, byTime, ts)| == |ts|
    ensures forall k | 0 <= k < |ts| :: TimestampEntries(pos, byTime, ts)[k] == RevocationEntry(pos, byTime.items[ts[k]], ts[k])
    decreases |ts|
  {
    if ts != [] {
      assert forall t | t in Init(ts) :: t in ts;
      TimestampEntriesShape(pos, byTime, Init(ts));
    }
  }

  /**
   * Entry `e` is a registry state supplied for the definition it points at: the
   * position is a definition's, and the states under that definition's id hold
   * the entry's state at the entry's timestamp.
   */
  ghost predicate Supplied(defs: seq<RegistryDefinition>, states: Option<RegistryStates>, e: RevocationEntry)
    requires StatesValid(states)
  {
    && e.defIdx < |defs|
    && e.timestamp in StatesFor(states, defs[e.defIdx].id).items
    && e.entry == StatesFor(states, defs[e.defIdx].id).items[e.timestamp]
  }

  /** Every entry of `es` is supplied, and the entries are grouped by non-decreasing position. */
  ghost predicate EntriesSound(defs: seq<RegistryDefinition>, states: Option<RegistryStates>, es: seq<RevocationEntry>)
    requires StatesValid(states)
  {
    && (forall k | 0 <= k < |es| :: Supplied(defs, states, es[k]))
    && (forall j, k | 0 <= j <= k < |es| :: es[j].defIdx <= es[k].defIdx)
  }

  /** Every state supplied for every definition has its entry in `es`. */
  ghost predicate EntriesComplete(defs: seq<RegistryDefinition>, states: Option<RegistryStates>, es: seq<RevocationEntry>)
    requires StatesValid(states)
  {
    forall p, t | 0 <= p < |defs| && t in StatesFor(states, defs[p].id).items ::
      RevocationEntry(p, StatesFor(states, defs[p].id).items[t], t) in es
  }

  /** The entries of the last definition are supplied and carry its position. */
  lemma LastDefinitionSupplied(defs: seq<RegistryDefinition>, states: Option<RegistryStates>)
    requires StatesValid(states) && defs != []
    ensures var last := DefinitionEntries(|defs| - 1, Last(defs).id, states);
      forall k | 0 <= k < |last| :: last[k].defIdx == |defs| - 1 && Supplied(defs, states, last[k])
  {
    var n := |defs| - 1;
    var last := DefinitionEntries(n, Last(defs).id, states);
    var byTime := StatesFor(states, Last(defs).id);
    TimestampEntriesShape(n, byTime, byTime.keys);
    forall k | 0 <= k < |last| ensures last[k].defIdx == n && Supplied(defs, states, last[k]) {
      assert byTime.keys[k] in byTime.keys;
    }
  }

  /** An entry supplied for a prefix of the definitions stays supplied when more are listed. */
  lemma SuppliedExtend(defs: seq<RegistryDefinition>, states: Option<RegistryStates>, pre: seq<RevocationEntry>)
    requires StatesValid(states) && defs != []
    requires forall k | 0 <= k < |pre| :: Supplied(Init(defs), states, pre[k])
    ensures forall k | 0 <= k < |pre| :: Supplied(defs, states, pre[k]) && pre[k].defIdx < |defs| - 1
  {
    forall k | 0 <= k < |pre| ensures Supplied(defs, states, pre[k]) && pre[k].defIdx < |defs| - 1 {
      assert Init(defs)[pre[k].defIdx] == defs[pre[k].defIdx];
    }
  }

  /** Sound entries for earlier positions followed by supplied entries at position `n` are sound. */
  lemma ConcatSound(defs: seq<RegistryDefinition>, states: Option<RegistryStates>,
                    pre: seq<RevocationEntry>, last: seq<RevocationEntry>, n: nat)
    requires StatesValid(states)
    requires forall k | 0 <= k < |pre| :: Supplied(defs, states, pre[k]) && pre[k].defIdx < n
    requires forall j, k | 0 <= j <= k < |pre| :: pre[j].defIdx <= pre[k].defIdx
    requires forall k | 0 <= k < |last| :: last[k].defIdx == n && Supplied(defs, states, last[k])
    ensures EntriesSound(defs, states, pre + last)
  {
    var es := pre + last;
    forall k | 0 <= k < |es| ensures Supplied(defs, states, es[k]) {
      if k < |pre| {
        assert es[k] == pre[k];
      } else {
        assert es[k] == last[k - |pre|];
      }
    }
    forall j, k | 0 <= j <= k < |es| ensures es[j].defIdx <= es[k].defIdx {
      if k < |pre| {
        assert es[j] == pre[j] && es[k] == pre[k];
      } else if j >= |pre| {
        assert es[j] == last[j - |pre|] && es[k] == last[k - |pre|];
      } else {
        assert es[j] == pre[j] && es[k] == last[k - |pre|];
      }
    }
  }

  /**
   * Soundness of the entries `verify` builds: each points at a definition by its
   * position, comes from the states supplied under that definition's id with its
   * own timestamp, and entries are grouped by definition in list order.
   */
  lemma {:induction false} RevocationEntriesSound(defs: seq<RegistryDefinition>, states: Option<RegistryStates>)
    requires StatesValid(states)
    ensures EntriesSound(defs, states, RevocationEntries(defs, states))
    decreases |defs|
  {
    if defs != [] {
      var pre := RevocationEntries(Init(defs), states);
      var last := DefinitionEntries(|defs| - 1, Last(defs).id, states);
      RevocationEntriesSound(Init(defs), states);
      SuppliedExtend(defs, states, pre);
      LastDefinitionSupplied(defs, states);
      ConcatSound(defs, states, pre, last, |defs| - 1);
    }
  }

  /** Every state supplied for the last definition has its entry among that definition's entries. */
  lemma LastDefinitionComplete(defs: seq<RegistryDefinition>, states: Option<RegistryStates>)
    requires StatesValid(states) && defs != []
    ensures var byTime := StatesFor(states, Last(defs).id);
      forall t | t in byTime.items ::
        RevocationEntry(|defs| - 1, byTime.items[t], t) in DefinitionEntries(|defs| - 1, Last(defs).id, states)
  {
    var byTime := StatesFor(states, Last(defs).id);
    var last := DefinitionEntries(|defs| - 1, Last(defs).id, states);
    TimestampEntriesShape(|defs| - 1, byTime, byTime.keys);
    forall t | t in byTime.items ensures RevocationEntry(|defs| - 1, byTime.items[t], t) in last {
      assert t in byTime.keys;
      var m :| 0 <= m < |byTime.keys| && byTime.keys[m] == t;
      assert last[m] == RevocationEntry(|defs| - 1, byTime.items[t], t);
    }
  }

  /** Complete entries for a prefix, followed by all entries of the last definition, are complete. */
  lemma ConcatComplete(defs: seq<RegistryDefinition>, states: Option<RegistryStates>,
                       pre: seq<RevocationEntry>, last: seq<RevocationEntry>)
    requires StatesValid(states) && defs != []
    requires EntriesComplete(Init(defs), states, pre)
    requires var byTime := StatesFor(states, Last(defs).id);
      forall t | t in byTime.items :: RevocationEntry(|defs| - 1, byTime.items[t], t) in last
    ensures EntriesComplete(defs, states, pre + last)
  {
    forall p, t | 0 <= p < |defs| && t in StatesFor(states, defs[p].id).items
      ensures RevocationEntry(p, StatesFor(states, defs[p].id).items[t], t) in pre + last
    {
      if p < |defs| - 1 {
        assert Init(defs)[p] == defs[p];
        assert RevocationEntry(p, StatesFor(states, defs[p].id).items[t], t) in pre;
      } else {
        assert defs[p] == Last(defs);
        assert RevocationEntry(p, StatesFor(states, defs[p].id).items[t], t) in last;
      }
    }
  }

  /**
   * Completeness: every registry state supplied under the id of a listed
   * definition reaches the engine as an entry pointing at that definition.
   */
  lemma {:induction false} RevocationEntriesComplete(defs: seq<RegistryDefinition>, states: Option<RegistryStates>)
    requires StatesValid(states)
    ensures EntriesComplete(defs, states, RevocationEntries(defs, states))
    decreases |defs|
  {
    if defs != [] {
      RevocationEntriesComplete(Init(defs), states);
      LastDefinitionComplete(defs, states);
      ConcatComplete(defs, states, RevocationEntries(Init(defs), states), DefinitionEntries(|defs| - 1, Last(defs).id, states));
    }
  }

  /**
   * The position an entry carries selects, in the definition list handed to the
   * engine, the definition whose id keyed the entry's states; states under ids
   * that no listed definition has are dropped.
   */
  lemma EntriesPointAtDefinitions(defs: seq<RegistryDefinition>, states: Option<RegistryStates>)
    requires StatesValid(states)
    ensures forall k | 0 <= k < |RevocationEntries(defs, states)| ::
      var e := RevocationEntries(defs, states)[k];
      && e.defIdx < |DefinitionHandles(defs)|
      && DefinitionHandles(defs)[e.defIdx] == defs[e.defIdx].handle
      && HasStates(states, defs[e.defIdx].id)
      && e.timestamp in states.value.items[defs[e.defIdx].id].items
      && e.entry == states.value.items[defs[e.defIdx].id].items[e.timestamp]
  {
    RevocationEntriesSound(defs, states);
    var es := RevocationEntries(defs, states);
    forall k | 0 <= k < |es|
      ensures es[k].defIdx < |DefinitionHandles(defs)|
      ensures HasStates(states, defs[es[k].defIdx].id)
    {
      assert Supplied(defs, states, es[k]);
    }
  }

  /**
   * `reg_entries or None`: no entry at all (and so `None` for the engine) exactly
   * when no listed definition has a non-empty set of states.
   */
  lemma {:induction false} NoEntriesIffNoStates(defs: seq<RegistryDefinition>, states: Option<RegistryStates>)
    requires StatesValid(states)
    ensures RevocationEntries(defs, states) == [] <==>
      forall p | 0 <= p < |defs| :: StatesFor(states, defs[p].id).keys == []
    decreases |defs|
  {
    if defs != [] {
      NoEntriesIffNoStates(Init(defs), states);
      LastDefinitionEmpty(defs, states);
      NoStatesSplit(defs, states);
    }
  }

  /** The last definition contributes no entry exactly when it has no states. */
  lemma LastDefinitionEmpty(defs: seq<RegistryDefinition>, states: Option<RegistryStates>)
    requires StatesValid(states) && defs != []
    ensures RevocationEntries(defs, states) == [] <==>
      RevocationEntries(Init(defs), states) == [] && StatesFor(states, Last(defs).id).keys == []
  {
    var byTime := StatesFor(states, Last(defs).id);
    TimestampEntriesShape(|defs| - 1, byTime, byTime.keys);
  }

  /** No definition has states exactly when none of the earlier ones and not the last one has. */
  lemma NoStatesSplit(defs: seq<RegistryDefinition>, states: Option<RegistryStates>)
    requires StatesValid(states) && defs != []
    ensures (forall p | 0 <= p < |defs| :: StatesFor(states, defs[p].id).keys == []) <==>
      (forall p | 0 <= p < |Init(defs)| :: StatesFor(states, Init(defs)[p].id).keys == [])
      && StatesFor(states, Last(defs).id).keys == []
  {
    forall p | 0 <= p < |defs| - 1 ensures Init(defs)[p] == defs[p] { }
  }

}
