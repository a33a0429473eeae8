/**
 * The list building that `Presentation.create` does before it hands everything to
 * the engine. The engine matches prove instructions to credential entries purely
 * by position, so the point of this module is that those positions are consistent.
 * The list building of `Presentation.verify` is in module `PresentationVerify`.
 */
module Presentation {
  import opened Wrappers
  import opened Engine
  import opened Dicts
  import opened PresentCreds

  // ---------------------------------------------------------------------------
  // What `create` hands to the engine
  // ---------------------------------------------------------------------------

  /** `bindings.CredentialEntry.create(cred.handle, timestamp, rev_state and rev_state.handle)` */
  datatype CredentialEntry = CredentialEntry(credential: Handle, timestamp: Timestamp, revState: Option<Handle>)

  /** `bindings.CredentialProve.attribute(...)` and `bindings.CredentialProve.predicate(...)` */
  datatype CredentialProve =
    | AttributeProve(entryIdx: nat, referent: Referent, revealed: bool)
    | PredicateProve(entryIdx: nat, referent: Referent)

  /** The arguments of `bindings.create_presentation`, in the order the wrapper passes them. */
  datatype CreateCall = CreateCall(
    presReq: Handle,
    creds: seq<CredentialEntry>,
    credsProve: seq<CredentialProve>,
    selfAttest: Option<map<string, string>>,
    masterSecret: Handle,
    schemas: seq<Handle>,
    schemaIds: seq<string>,
    credDefs: seq<Handle>,
    credDefIds: seq<string>)

  // ---------------------------------------------------------------------------
  // The order in which `create` visits the aggregate
  // ---------------------------------------------------------------------------

  /** One (credential, timestamp) pair of the aggregate with its entry. */
  datatype Slot = Slot(cred: Credential, timestamp: Timestamp, entry: Entry)

  function Last<T>(s: seq<T>): (x: T)
    requires s != []
  {
    s[|s| - 1]
  }

  function Init<T>(s: seq<T>): (prefix: seq<T>)
    requires s != []
  {
    s[..|s| - 1]
  }

  /** A non-empty sequence is its initial part followed by its last element. */
  lemma InitLast<T>(s: seq<T>)
    requires s != []
    ensures s == Init(s) + [Last(s)]
    ensures Last(s) in s
    ensures forall x | x in Init(s) :: x in s
  {
  }

  /** The pairs of one credential, for the timestamps `ts` taken in order. */
  function CredSlots(cred: Credential, credTs: Dict<Timestamp, Entry>, ts: seq<Timestamp>): (slots: seq<Slot>)
    requires forall t | t in ts :: t in credTs.items
    decreases |ts|
  {
    if ts == [] then []
    else
      var t := Last(ts);
      assert t in ts;
      CredSlots(cred, credTs, Init(ts)) + [Slot(cred, t, credTs.items[t])]
  }

  /** The pairs of the credentials `cs`, taken in order. */
  function SlotsOf(d: Entries, cs: seq<Credential>): (slots: seq<Slot>)
    requires forall c | c in cs :: c in d.items && d.items[c].Valid()
    decreases |cs|
  {
    if cs == [] then []
    else
      var c := Last(cs);
      assert c in cs;
      assert d.items[c].Valid();
      assert forall t | t in d.items[c].keys :: t in d.items[c].items;
      SlotsOf(d, Init(cs)) + CredSlots(c, d.items[c], d.items[c].keys)
  }

  /** Every (credential, timestamp) pair: outer insertion order first, then inner. */
  function Slots(d: Entries): (slots: seq<Slot>)
    requires EntriesValid(d)
  {
    SlotsOf(d, d.keys)
  }

  function ToCredentialEntry(s: Slot): (ce: CredentialEntry) {
    CredentialEntry(s.cred.handle, s.timestamp, s.entry.revState)
  }

  function CredentialEntries(slots: seq<Slot>): (ces: seq<CredentialEntry>)
    decreases |slots|
  {
    if slots == [] then [] else CredentialEntries(Init(slots)) + [ToCredentialEntry(Last(slots))]
  }

  /** The set of (credential, timestamp) pairs present in the aggregate. */
  ghost function Pairs(d: Entries): (ps: set<(Credential, Timestamp)>) {
    set c, t | c in d.items && t in d.items[c].items :: (c, t)
  }

  function Key(s: Slot): (Credential, Timestamp) {
    (s.cred, s.timestamp)
  }

  // ---------------------------------------------------------------------------
  // The prove instructions `create` emits
  // ---------------------------------------------------------------------------

  /** The attribute instructions for the pairs of `attrs`, each tagged `idx`. */
  function AttributeInstructions(idx: nat, attrs: set<(Referent, bool)>): (ins: set<CredentialProve>) {
    set a | a in attrs :: AttributeProve(idx, a.0, a.1)
  }

  /** The predicate instructions for the referents of `preds`, each tagged `idx`. */
  function PredicateInstructions(idx: nat, preds: set<Referent>): (ins: set<CredentialProve>) {
    set r | r in preds :: PredicateProve(idx, r)
  }

  /** `ps` lists the attribute instructions of `attrs`, each once, in some order. */
  ghost predicate AttributeBlock(ps: seq<CredentialProve>, idx: nat, attrs: set<(Referent, bool)>) {
    |ps| == |attrs| && multiset(ps) == multiset(AttributeInstructions(idx, attrs))
  }

  /** `ps` lists the predicate instructions of `preds`, each once, in some order. */
  ghost predicate PredicateBlock(ps: seq<CredentialProve>, idx: nat, preds: set<Referent>) {
    |ps| == |preds| && multiset(ps) == multiset(PredicateInstructions(idx, preds))
  }

  /** The instructions of entry `idx`: its attributes (in any order), then its predicates. */
  ghost predicate Block(ps: seq<CredentialProve>, idx: nat, e: Entry) {
    && |e.attrs| <= |ps|
    && AttributeBlock(ps[..|e.attrs|], idx, e.attrs)
    && PredicateBlock(ps[|e.attrs|..], idx, e.preds)
  }

  function BlockSize(e: Entry): (n: nat) {
    |e.attrs| + |e.preds|
  }

  /** `ps` is the blocks of `slots`, one after the other, block k tagged k. */
  ghost predicate ProvesFor(ps: seq<CredentialProve>, slots: seq<Slot>)
    decreases |slots|
  {
    if slots == [] then ps == []
    else
      var n := BlockSize(Last(slots).entry);
      && n <= |ps|
      && ProvesFor(ps[..|ps| - n], Init(slots))
      && Block(ps[|ps| - n..], |slots| - 1, Last(slots).entry)
  }

  /** The number of attribute (or predicate) instructions tagged `idx`. */
  function CountTagged(ps: seq<CredentialProve>, idx: nat, attribute: bool): (n: nat)
    decreases |ps|
  {
    if ps == [] then 0
    else CountTagged(Init(ps), idx, attribute)
         + (if Last(ps).entryIdx == idx && Last(ps).AttributeProve? == attribute then 1 else 0)
  }

  // ---------------------------------------------------------------------------
  // The catalogs
  // ---------------------------------------------------------------------------

  /** `[s.handle for s in catalog.values()]` */
  function CatalogHandles(catalog: Dict<string, Handle>): (hs: seq<Handle>)
    requires catalog.Valid()
  {
    seq(|catalog.keys|, k requires 0 <= k < |catalog.keys| => catalog.items[catalog.keys[k]])
  }

  /** Rebuilds a catalog from parallel id and handle lists, as the engine pairs them. */
  function Zip(ids: seq<string>, handles: seq<Handle>): (m: map<string, Handle>)
    requires |ids| == |handles|
    decreases |ids|
  {
    if ids == [] then map[] else Zip(Init(ids), Init(handles))[Last(ids) := Last(handles)]
  }

  // ---------------------------------------------------------------------------
  // Presentation.create
  // ---------------------------------------------------------------------------

  /**
   * The attribute instructions of one entry. Python walks the set in an order it
   * leaves unspecified; this picks the elements in any order.
   */
  method AttributeProves(entryIdx: nat, attrs: set<(Referent, bool)>) returns (ps: seq<CredentialProve>)
    ensures AttributeBlock(ps, entryIdx, attrs)
  {
    ps := [];
    var rest := attrs;
    while rest != {}
      invariant rest <= attrs
      invariant |ps| + |rest| == |attrs|
      invariant multiset(ps) == multiset(AttributeInstructions(entryIdx, attrs - rest))
      decreases |rest|
    {
      var a :| a in rest;
      AttributeInstructionsAdd(entryIdx, attrs - rest, a);
      assert (attrs - rest) + {a} == attrs - (rest - {a});
      ps := ps + [AttributeProve(entryIdx, a.0, a.1)];
      rest := rest - {a};
    }
    assert attrs - rest == attrs;
  }

  /** The predicate instructions of one entry, in any order. */
  method PredicateProves(entryIdx: nat, preds: set<Referent>) returns (ps: seq<CredentialProve>)
    ensures PredicateBlock(ps, entryIdx, preds)
  {
    ps := [];
    var rest := preds;
    while rest != {}
      invariant rest <= preds
      invariant |ps| + |rest| == |preds|
      invariant multiset(ps) == multiset(PredicateInstructions(entryIdx, preds - rest))
      decreases |rest|
    {
      var r :| r in rest;
      PredicateInstructionsAdd(entryIdx, preds - rest, r);
      assert (preds - rest) + {r} == preds - (rest - {r});
      ps := ps + [PredicateProve(entryIdx, r)];
      rest := rest - {r};
    }
    assert preds - rest == preds;
  }

  /** One more pair adds exactly its own instruction, which was not there before. */
  lemma AttributeInstructionsAdd(idx: nat, done: set<(Referent, bool)>, a: (Referent, bool))
    requires a !in done
    ensures multiset(AttributeInstructions(idx, done + {a}))
         == multiset(AttributeInstructions(idx, done)) + multiset{AttributeProve(idx, a.0, a.1)}
  {
    var x := AttributeProve(idx, a.0, a.1);
    assert AttributeInstructions(idx, done + {a}) == AttributeInstructions(idx, done) + {x};
    assert x !in AttributeInstructions(idx, done);
  }

  /** One more referent adds exactly its own instruction, which was not there before. */
  lemma PredicateInstructionsAdd(idx: nat, done: set<Referent>, r: Referent)
    requires r !in done
    ensures multiset(PredicateInstructions(idx, done + {r}))
         == multiset(PredicateInstructions(idx, done)) + multiset{PredicateProve(idx, r)}
  {
    var x := PredicateProve(idx, r);
    assert PredicateInstructions(idx, done + {r}) == PredicateInstructions(idx, done) + {x};
    assert x !in PredicateInstructions(idx, done);
  }

  /**
   * The two nested loops of `Presentation.create`: every (credential, timestamp)
   * pair, in insertion order, gets the next entry index `len(creds)`, and its
   * attribute and predicate instructions are emitted tagged with that index.
   */
  method Flatten(d: Entries) returns (creds: seq<CredentialEntry>, credsProve: seq<CredentialProve>)
    requires EntriesValid(d)
    ensures creds == CredentialEntries(Slots(d))
    ensures ProvesFor(credsProve, Slots(d))
  {
    creds := [];
    credsProve := [];
    ghost var slots: seq<Slot> := [];
    var i := 0;
    while i < |d.keys|
      invariant 0 <= i <= |d.keys|
      invariant slots == SlotsOf(d, d.keys[..i])
      invariant creds == CredentialEntries(slots) && |creds| == |slots|
      invariant ProvesFor(credsProve, slots)
    {
      var cred := d.keys[i];
      creds, credsProve, slots := FlattenCredential(cred, d.items[cred], creds, credsProve, slots);
      SlotsOfStep(d, i);
      i := i + 1;
    }
    assert d.keys[..i] == d.keys;
  }

  /**
   * The inner loop of `Presentation.create`: appends the entries and instructions
   * of every timestamp of one credential, in insertion order.
   */
  method FlattenCredential(cred: Credential, credTs: Dict<Timestamp, Entry>,
                           creds0: seq<CredentialEntry>, credsProve0: seq<CredentialProve>, ghost slots0: seq<Slot>)
    returns (creds: seq<CredentialEntry>, credsProve: seq<CredentialProve>, ghost slots: seq<Slot>)
    requires credTs.Valid()
    requires creds0 == CredentialEntries(slots0) && |creds0| == |slots0|
    requires ProvesFor(credsProve0, slots0)
    ensures slots == slots0 + CredSlots(cred, credTs, credTs.keys)
    ensures creds == CredentialEntries(slots) && |creds| == |slots|
    ensures ProvesFor(credsProve, slots)
    ensures |creds| == |creds0| + |credTs.keys| && creds[..|creds0|] == creds0
    ensures forall k | 0 <= k < |credTs.keys| ::
      creds[|creds0| + k] == CredentialEntry(cred.handle, credTs.keys[k], credTs.items[credTs.keys[k]].revState)
  {
    creds, credsProve, slots := creds0, credsProve0, slots0;
    var j := 0;
    assert credTs.keys[..0] == [];
    while j < |credTs.keys|
      invariant 0 <= j <= |credTs.keys|
      invariant slots == slots0 + CredSlots(cred, credTs, credTs.keys[..j])
      invariant creds == CredentialEntries(slots) && |creds| == |slots|
      invariant ProvesFor(credsProve, slots)
    {
      var timestamp := credTs.keys[j];
      var entry := credTs.items[timestamp];
      var entryIdx := |creds|;
      creds := creds + [CredentialEntry(cred.handle, timestamp, entry.revState)];
      var attrProves := AttributeProves(entryIdx, entry.attrs);
      var predProves := PredicateProves(entryIdx, entry.preds);
      ProvesForAppend(credsProve, slots, attrProves, predProves, Slot(cred, timestamp, entry));
      credsProve := credsProve + (attrProves + predProves);
      CredSlotsStep(slots0, cred, credTs, j);
      assert Init(slots + [Slot(cred, timestamp, entry)]) == slots;
      slots := slots + [Slot(cred, timestamp, entry)];
      j := j + 1;
    }
    assert credTs.keys[..j] == credTs.keys;
    AppendedEntries(slots0, cred, credTs);
  }

  /** The entries of one credential's pairs come right after the earlier ones, one per timestamp. */
  lemma AppendedEntries(slots0: seq<Slot>, cred: Credential, credTs: Dict<Timestamp, Entry>)
    requires credTs.Valid()
    ensures var creds := CredentialEntries(slots0 + CredSlots(cred, credTs, credTs.keys));
      && |creds| == |slots0| + |credTs.keys|
      && creds[..|slots0|] == CredentialEntries(slots0)
      && forall k | 0 <= k < |credTs.keys| ::
           creds[|slots0| + k] == CredentialEntry(cred.handle, credTs.keys[k], credTs.items[credTs.keys[k]].revState)
  {
    var sc := CredSlots(cred, credTs, credTs.keys);
    var slots := slots0 + sc;
    CredSlotsShape(cred, credTs, credTs.keys);
    CredentialEntriesShape(slots0);
    CredentialEntriesShape(slots);
    var creds := CredentialEntries(slots);
    forall k | 0 <= k < |slots0| ensures creds[k] == CredentialEntries(slots0)[k] {
      assert slots[k] == slots0[k];
    }
    forall k | 0 <= k < |credTs.keys|
      ensures creds[|slots0| + k] == CredentialEntry(cred.handle, credTs.keys[k], credTs.items[credTs.keys[k]].revState)
    {
      assert slots[|slots0| + k] == sc[k];
    }
  }

  /**
   * `Presentation.create`: splits the catalogs into parallel id and handle lists
   * and flattens the aggregate. The self-attested values passed on are the
   * `selfAttest` argument, not the aggregate's own map.
   */
  method Create(presReq: Handle, presentCreds: PresentCredentials, selfAttest: Option<map<string, string>>,
                masterSecret: Handle, schemas: Dict<string, Handle>, credDefs: Dict<string, Handle>)
    returns (call: CreateCall)
    requires presentCreds.Valid() && schemas.Valid() && credDefs.Valid()
    ensures call.creds == CredentialEntries(Slots(presentCreds.entries))
    ensures ProvesFor(call.credsProve, Slots(presentCreds.entries))
    ensures call.selfAttest == selfAttest
    ensures call.presReq == presReq && call.masterSecret == masterSecret
    ensures call.schemaIds == schemas.keys && call.schemas == CatalogHandles(schemas)
    ensures call.credDefIds == credDefs.keys && call.credDefs == CatalogHandles(credDefs)
  {
    var schemaIds := schemas.keys;
    var credDefIds := credDefs.keys;
    var schemaHandles := CatalogHandles(schemas);
    var credDefHandles := CatalogHandles(credDefs);
    var creds, credsProve := Flatten(presentCreds.entries);
    call := CreateCall(presReq, creds, credsProve, selfAttest, masterSecret,
                       schemaHandles, schemaIds, credDefHandles, credDefIds);
  }

  // ---------------------------------------------------------------------------
  // Lemmas about Create's output
  // ---------------------------------------------------------------------------

  /** Taking one more timestamp of a credential adds its pair at the end. */
  lemma CredSlotsStep(before: seq<Slot>, cred: Credential, credTs: Dict<Timestamp, Entry>, j: nat)
    requires credTs.Valid() && j < |credTs.keys|
    ensures before + CredSlots(cred, credTs, credTs.keys[..j + 1])
         == before + CredSlots(cred, credTs, credTs.keys[..j]) + [Slot(cred, credTs.keys[j], credTs.items[credTs.keys[j]])]
  {
    assert Init(credTs.keys[..j + 1]) == credTs.keys[..j];
  }

  /** Taking one more credential adds all of its pairs at the end. */
  lemma SlotsOfStep(d: Entries, i: nat)
    requires EntriesValid(d) && i < |d.keys|
    ensures SlotsOf(d, d.keys[..i + 1])
         == SlotsOf(d, d.keys[..i]) + CredSlots(d.keys[i], d.items[d.keys[i]], d.items[d.keys[i]].keys)
  {
    assert Init(d.keys[..i + 1]) == d.keys[..i];
  }

  /** An attribute block followed by a predicate block is the block of an entry. */
  lemma BlockOfParts(attrProves: seq<CredentialProve>, predProves: seq<CredentialProve>, idx: nat, e: Entry)
    requires AttributeBlock(attrProves, idx, e.attrs)
    requires PredicateBlock(predProves, idx, e.preds)
    ensures Block(attrProves + predProves, idx, e)
  {
    var blk := attrProves + predProves;
    assert blk[..|e.attrs|] == attrProves;
    assert blk[|e.attrs|..] == predProves;
  }

  /** The instructions of the slots before the last one, then the last block, are the instructions of all slots. */
  lemma ProvesForFold(pre: seq<CredentialProve>, blk: seq<CredentialProve>, slots: seq<Slot>)
    requires slots != []
    requires ProvesFor(pre, Init(slots))
    requires Block(blk, |slots| - 1, Last(slots).entry)
    ensures ProvesFor(pre + blk, slots)
  {
    var all := pre + blk;
    assert |blk| == BlockSize(Last(slots).entry);
    assert all[..|all| - |blk|] == pre;
    assert all[|all| - |blk|..] == blk;
  }

  /** Appending the block of one more slot keeps the instructions in step with the slots. */
  lemma ProvesForAppend(ps: seq<CredentialProve>, slots: seq<Slot>, attrProves: seq<CredentialProve>,
                        predProves: seq<CredentialProve>, s: Slot)
    requires ProvesFor(ps, slots)
    requires AttributeBlock(attrProves, |slots|, s.entry.attrs)
    requires PredicateBlock(predProves, |slots|, s.entry.preds)
    ensures ProvesFor(ps + (attrProves + predProves), slots + [s])
  {
    BlockOfParts(attrProves, predProves, |slots|, s.entry);
    assert Init(slots + [s]) == slots && Last(slots + [s]) == s;
    ProvesForFold(ps, attrProves + predProves, slots + [s]);
  }

  /** What `CredSlots` lists: one pair per timestamp, in the order given. */
  lemma {:induction false} CredSlotsShape(cred: Credential, credTs: Dict<Timestamp, Entry>, ts: seq<Timestamp>)
    requires forall t | t in ts :: t in credTs.items
    ensures |CredSlots(cred, credTs, ts)| == |ts|
    ensures forall k | 0 <= k < |ts| :: CredSlots(cred, credTs, ts)[k] == Slot(cred, ts[k], credTs.items[ts[k]])
    decreases |ts|
  {
    if ts != [] {
      assert forall t | t in Init(ts) :: t in ts;
      CredSlotsShape(cred, credTs, Init(ts));
    }
  }

  /** Each pair of `s` is stored in `d` under one of the credentials `cs`, with its entry. */
  ghost predicate StoredUnder(d: Entries, cs: seq<Credential>, s: seq<Slot>) {
    forall k | 0 <= k < |s| ::
      s[k].cred in cs && HasSlot(d, s[k].cred, s[k].timestamp) && s[k].entry == SlotOf(d, s[k].cred, s[k].timestamp)
  }

  /** Every pair stored in `d` under one of the credentials `cs` is listed in `s`. */
  ghost predicate Covers(d: Entries, cs: seq<Credential>, s: seq<Slot>) {
    forall c, t | c in cs && c in d.items && t in d.items[c].items :: exists k | 0 <= k < |s| :: Key(s[k]) == (c, t)
  }

  /** No pair is listed twice. */
  ghost predicate NoRepeatedKeys(s: seq<Slot>) {
    forall i, j | 0 <= i < j < |s| :: Key(s[i]) != Key(s[j])
  }

  /** `sc` lists the pairs of credential `c`, one per timestamp, in insertion order. */
  ghost predicate PairsOfCredential(d: Entries, c: Credential, sc: seq<Slot>)
    requires c in d.items && d.items[c].Valid()
  {
    && |sc| == |d.items[c].keys|
    && forall k | 0 <= k < |sc| ::
         sc[k] == Slot(c, d.items[c].keys[k], d.items[c].items[d.items[c].keys[k]])
  }

  lemma CredSlotsArePairs(d: Entries, c: Credential)
    requires c in d.items && d.items[c].Valid()
    ensures PairsOfCredential(d, c, CredSlots(c, d.items[c], d.items[c].keys))
  {
    CredSlotsShape(c, d.items[c], d.items[c].keys);
  }

  /** The flattening of `cs` is the flattening of all but its last credential, then the last one's pairs. */
  lemma SlotsOfUnfold(d: Entries, cs: seq<Credential>)
    requires cs != [] && forall c | c in cs :: c in d.items && d.items[c].Valid()
    ensures Last(cs) in d.items && d.items[Last(cs)].Valid()
    ensures forall c | c in Init(cs) :: c in d.items && d.items[c].Valid()
    ensures SlotsOf(d, cs) == SlotsOf(d, Init(cs)) + CredSlots(Last(cs), d.items[Last(cs)], d.items[Last(cs)].keys)
    ensures PairsOfCredential(d, Last(cs), CredSlots(Last(cs), d.items[Last(cs)], d.items[Last(cs)].keys))
  {
    InitLast(cs);
    CredSlotsArePairs(d, Last(cs));
  }

  lemma StoredStep(d: Entries, p: seq<Credential>, c: Credential, sp: seq<Slot>, sc: seq<Slot>)
    requires c in d.items && d.items[c].Valid()
    requires StoredUnder(d, p, sp) && PairsOfCredential(d, c, sc)
    ensures StoredUnder(d, p + [c], sp + sc)
  {
    var s := sp + sc;
    forall k | 0 <= k < |s|
      ensures s[k].cred in p + [c] && HasSlot(d, s[k].cred, s[k].timestamp) && s[k].entry == SlotOf(d, s[k].cred, s[k].timestamp)
    {
      if k < |sp| {
        assert s[k] == sp[k];
      } else {
        assert s[k] == sc[k - |sp|];
        assert d.items[c].keys[k - |sp|] in d.items[c].keys;
      }
    }
  }

  /** Each pair flattened from the credentials `cs` is a pair stored under one of them. */
  lemma {:induction false} SlotsOfSound(d: Entries, cs: seq<Credential>)
    requires forall c | c in cs :: c in d.items && d.items[c].Valid()
    ensures StoredUnder(d, cs, SlotsOf(d, cs))
    decreases |cs|
  {
    if cs != [] {
      SlotsOfUnfold(d, cs);
      SlotsOfSound(d, Init(cs));
      InitLast(cs);
      StoredStep(d, Init(cs), Last(cs), SlotsOf(d, Init(cs)), CredSlots(Last(cs), d.items[Last(cs)], d.items[Last(cs)].keys));
    }
  }

  lemma CoversStep(d: Entries, p: seq<Credential>, c: Credential, sp: seq<Slot>, sc: seq<Slot>)
    requires c in d.items && d.items[c].Valid()
    requires Covers(d, p, sp) && PairsOfCredential(d, c, sc)
    ensures Covers(d, p + [c], sp + sc)
  {
    var s := sp + sc;
    forall c', t | c' in p + [c] && c' in d.items && t in d.items[c'].items
      ensures exists k | 0 <= k < |s| :: Key(s[k]) == (c', t)
    {
      if c' in p {
        var k :| 0 <= k < |sp| && Key(sp[k]) == (c', t);
        assert s[k] == sp[k];
      } else {
        assert t in d.items[c].keys;
        var m :| 0 <= m < |d.items[c].keys| && d.items[c].keys[m] == t;
        assert s[|sp| + m] == sc[m];
      }
    }
  }

  /** Every pair stored under one of the credentials `cs` is flattened. */
  lemma {:induction false} SlotsOfComplete(d: Entries, cs: seq<Credential>)
    requires forall c | c in cs :: c in d.items && d.items[c].Valid()
    ensures Covers(d, cs, SlotsOf(d, cs))
    decreases |cs|
  {
    if cs != [] {
      SlotsOfUnfold(d, cs);
      SlotsOfComplete(d, Init(cs));
      InitLast(cs);
      CoversStep(d, Init(cs), Last(cs), SlotsOf(d, Init(cs)), CredSlots(Last(cs), d.items[Last(cs)], d.items[Last(cs)].keys));
    }
  }

  lemma DistinctStep(d: Entries, p: seq<Credential>, c: Credential, sp: seq<Slot>, sc: seq<Slot>)
    requires c in d.items && d.items[c].Valid() && c !in p
    requires NoRepeatedKeys(sp) && (forall k | 0 <= k < |sp| :: sp[k].cred in p)
    requires PairsOfCredential(d, c, sc)
    ensures NoRepeatedKeys(sp + sc)
  {
    var s := sp + sc;
    forall i, j | 0 <= i < j < |s| ensures Key(s[i]) != Key(s[j]) {
      if j < |sp| {
        assert s[i] == sp[i] && s[j] == sp[j];
      } else if i < |sp| {
        assert s[i] == sp[i] && s[j] == sc[j - |sp|];
      } else {
        assert s[i] == sc[i - |sp|] && s[j] == sc[j - |sp|];
      }
    }
  }

  /** A sequence without repetitions loses none when its last element is dropped, and that element is not repeated. */
  lemma DistinctInit<T>(xs: seq<T>)
    requires xs != [] && forall i, j | 0 <= i < j < |xs| :: xs[i] != xs[j]
    ensures forall i, j | 0 <= i < j < |Init(xs)| :: Init(xs)[i] != Init(xs)[j]
    ensures Last(xs) !in Init(xs)
  {
    forall i, j | 0 <= i < j < |Init(xs)| ensures Init(xs)[i] != Init(xs)[j] {
      assert Init(xs)[i] == xs[i] && Init(xs)[j] == xs[j];
    }
    forall i | 0 <= i < |Init(xs)| ensures Init(xs)[i] != Last(xs) {
      assert Init(xs)[i] == xs[i];
    }
  }

  /** When no credential repeats, no flattened pair repeats. */
  lemma {:induction false} SlotsOfDistinct(d: Entries, cs: seq<Credential>)
    requires forall c | c in cs :: c in d.items && d.items[c].Valid()
    requires forall i, j | 0 <= i < j < |cs| :: cs[i] != cs[j]
    ensures NoRepeatedKeys(SlotsOf(d, cs))
    decreases |cs|
  {
    if cs != [] {
      SlotsOfUnfold(d, cs);
      DistinctInit(cs);
      SlotsOfDistinct(d, Init(cs));
      SlotsOfSound(d, Init(cs));
      DistinctStep(d, Init(cs), Last(cs), SlotsOf(d, Init(cs)), CredSlots(Last(cs), d.items[Last(cs)], d.items[Last(cs)].keys));
    }
  }

  /** A sequence without repetitions has as many distinct elements as it is long. */
  lemma {:induction false} DistinctCard<T>(xs: seq<T>)
    requires forall i, j | 0 <= i < j < |xs| :: xs[i] != xs[j]
    ensures |set k | 0 <= k < |xs| :: xs[k]| == |xs|
    decreases |xs|
  {
    if xs != [] {
      var p := Init(xs);
      DistinctCard(p);
      var sp := set k | 0 <= k < |p| :: p[k];
      var sx := set k | 0 <= k < |xs| :: xs[k];
      assert sx == sp + {Last(xs)};
      assert Last(xs) !in sp;
    }
  }

  /**
   * Entry-index bijection: entry k of `create` is a pair stored in the aggregate,
   * every stored pair gets an entry, no pair gets two, and so there are exactly
   * as many entries as (credential, timestamp) pairs.
   */
  lemma SlotsBijection(d: Entries)
    requires EntriesValid(d)
    ensures var s := Slots(d);
      && (forall k | 0 <= k < |s| ::
            HasSlot(d, s[k].cred, s[k].timestamp) && s[k].entry == SlotOf(d, s[k].cred, s[k].timestamp))
      && (forall c, t | HasSlot(d, c, t) :: exists k | 0 <= k < |s| :: Key(s[k]) == (c, t))
      && (forall i, j | 0 <= i < j < |s| :: Key(s[i]) != Key(s[j]))
      && |s| == |Pairs(d)|
  {
    var s := Slots(d);
    SlotsOfSound(d, d.keys);
    SlotsOfComplete(d, d.keys);
    SlotsOfDistinct(d, d.keys);
    var keys := seq(|s|, k requires 0 <= k < |s| => Key(s[k]));
    DistinctCard(keys);
    SlotKeysArePairs(d, s, keys);
  }

  /** Helper: the keys of the flattened pairs, as a set, are the stored pairs. */
  lemma SlotKeysArePairs(d: Entries, s: seq<Slot>, keys: seq<(Credential, Timestamp)>)
    requires |keys| == |s| && forall k | 0 <= k < |s| :: keys[k] == Key(s[k])
    requires forall k | 0 <= k < |s| :: HasSlot(d, s[k].cred, s[k].timestamp)
    requires forall c, t | HasSlot(d, c, t) :: exists k | 0 <= k < |s| :: Key(s[k]) == (c, t)
    ensures (set k | 0 <= k < |keys| :: keys[k]) == Pairs(d)
  {
    var ks := set k | 0 <= k < |keys| :: keys[k];
    forall x | x in Pairs(d) ensures x in ks {
      assert HasSlot(d, x.0, x.1);
      var k :| 0 <= k < |s| && Key(s[k]) == x;
      assert keys[k] == x;
    }
    forall x | x in ks ensures x in Pairs(d) {
      var k :| 0 <= k < |keys| && keys[k] == x;
      assert HasSlot(d, s[k].cred, s[k].timestamp);
    }
  }

  /** What `CredentialEntries` lists: one engine entry per pair, in the same order. */
  lemma {:induction false} CredentialEntriesShape(slots: seq<Slot>)
    ensures |CredentialEntries(slots)| == |slots|
    ensures forall k | 0 <= k < |slots| :: CredentialEntries(slots)[k] == ToCredentialEntry(slots[k])
    decreases |slots|
  {
    if slots != [] {
      CredentialEntriesShape(Init(slots));
    }
  }

  /**
   * Entry k that `create` hands to the engine carries the credential, the
   * timestamp and the revocation state of the k-th (credential, timestamp) pair
   * in insertion order, and there is one entry per stored pair.
   */
  lemma CreateEntries(d: Entries)
    requires EntriesValid(d)
    ensures var creds := CredentialEntries(Slots(d));
      && |creds| == |Slots(d)|
      && |creds| == |Pairs(d)|
      && forall k | 0 <= k < |creds| ::
           && creds[k].credential == Slots(d)[k].cred.handle
           && creds[k].timestamp == Slots(d)[k].timestamp
           && HasSlot(d, Slots(d)[k].cred, Slots(d)[k].timestamp)
           && creds[k].revState == SlotOf(d, Slots(d)[k].cred, Slots(d)[k].timestamp).revState
  {
    SlotsBijection(d);
    CredentialEntriesShape(Slots(d));
  }

  /** Every instruction of a block carries the block's index. */
  lemma BlockTagged(ps: seq<CredentialProve>, idx: nat, e: Entry)
    requires Block(ps, idx, e)
    ensures forall k | 0 <= k < |ps| :: ps[k].entryIdx == idx
  {
    var na := |e.attrs|;
    AttributeBlockMembers(ps[..na], idx, e.attrs);
    PredicateBlockMembers(ps[na..], idx, e.preds);
    forall k | 0 <= k < |ps| ensures ps[k].entryIdx == idx {
      if k < na {
        assert ps[k] == ps[..na][k];
      } else {
        assert ps[k] == ps[na..][k - na];
      }
    }
  }

  /** An attribute block holds attribute instructions tagged `idx` for exactly the pairs of `attrs`. */
  lemma AttributeBlockMembers(ps: seq<CredentialProve>, idx: nat, attrs: set<(Referent, bool)>)
    requires AttributeBlock(ps, idx, attrs)
    ensures forall k | 0 <= k < |ps| :: ps[k].AttributeProve? && ps[k].entryIdx == idx
    ensures forall i: nat, r, v :: AttributeProve(i, r, v) in ps <==> i == idx && (r, v) in attrs
    ensures forall i: nat, r :: PredicateProve(i, r) !in ps
  {
    forall x ensures x in ps <==> x in AttributeInstructions(idx, attrs) {
      assert x in ps <==> x in multiset(ps);
    }
    forall k | 0 <= k < |ps| ensures ps[k].AttributeProve? && ps[k].entryIdx == idx {
      assert ps[k] in ps;
    }
    forall i: nat, r, v ensures AttributeProve(i, r, v) in ps <==> i == idx && (r, v) in attrs {
      if i == idx && (r, v) in attrs {
        assert AttributeProve(i, r, v) in AttributeInstructions(idx, attrs);
      }
    }
  }

  /** A predicate block holds predicate instructions tagged `idx` for exactly the referents of `preds`. */
  lemma PredicateBlockMembers(ps: seq<CredentialProve>, idx: nat, preds: set<Referent>)
    requires PredicateBlock(ps, idx, preds)
    ensures forall k | 0 <= k < |ps| :: ps[k].PredicateProve? && ps[k].entryIdx == idx
    ensures forall i: nat, r :: PredicateProve(i, r) in ps <==> i == idx && r in preds
    ensures forall i: nat, r, v :: AttributeProve(i, r, v) !in ps
  {
    forall x ensures x in ps <==> x in PredicateInstructions(idx, preds) {
      assert x in ps <==> x in multiset(ps);
    }
    forall k | 0 <= k < |ps| ensures ps[k].PredicateProve? && ps[k].entryIdx == idx {
      assert ps[k] in ps;
    }
    forall i: nat, r ensures PredicateProve(i, r) in ps <==> i == idx && r in preds {
      if i == idx && r in preds {
        assert PredicateProve(i, r) in PredicateInstructions(idx, preds);
      }
    }
  }

  /** Which instructions the block of one entry holds. */
  lemma BlockMembers(blk: seq<CredentialProve>, idx: nat, e: Entry)
    requires Block(blk, idx, e)
    ensures forall i: nat, r, v :: AttributeProve(i, r, v) in blk <==> i == idx && (r, v) in e.attrs
    ensures forall i: nat, r :: PredicateProve(i, r) in blk <==> i == idx && r in e.preds
  {
    var na := |e.attrs|;
    assert blk == blk[..na] + blk[na..];
    AttributeBlockMembers(blk[..na], idx, e.attrs);
    PredicateBlockMembers(blk[na..], idx, e.preds);
  }

  /** Every instruction is tagged below `n`. */
  ghost predicate TaggedBelow(ps: seq<CredentialProve>, n: nat) {
    forall k | 0 <= k < |ps| :: ps[k].entryIdx < n
  }

  /** The instructions come grouped by non-decreasing entry index. */
  ghost predicate Grouped(ps: seq<CredentialProve>) {
    forall j, k | 0 <= j <= k < |ps| :: ps[j].entryIdx <= ps[k].entryIdx
  }

  /** Entry i is asked to prove exactly the attribute pairs of slot i. */
  ghost predicate AttributesMatch(ps: seq<CredentialProve>, slots: seq<Slot>) {
    forall i: nat, r, v :: AttributeProve(i, r, v) in ps <==> i < |slots| && (r, v) in slots[i].entry.attrs
  }

  /** Entry i is asked to prove exactly the predicate referents of slot i. */
  ghost predicate PredicatesMatch(ps: seq<CredentialProve>, slots: seq<Slot>) {
    forall i: nat, r :: PredicateProve(i, r) in ps <==> i < |slots| && r in slots[i].entry.preds
  }

  /** Splits the instructions of non-empty `slots` into those of all but the last slot and the last block. */
  lemma ProvesForUnfold(ps: seq<CredentialProve>, slots: seq<Slot>) returns (pre: seq<CredentialProve>, blk: seq<CredentialProve>)
    requires slots != [] && ProvesFor(ps, slots)
    ensures ps == pre + blk
    ensures ProvesFor(pre, Init(slots))
    ensures Block(blk, |slots| - 1, Last(slots).entry)
  {
    var n := BlockSize(Last(slots).entry);
    pre := ps[..|ps| - n];
    blk := ps[|ps| - n..];
    assert ps == pre + blk;
  }

  lemma IndexOrderStep(pre: seq<CredentialProve>, blk: seq<CredentialProve>, m: nat, e: Entry)
    requires TaggedBelow(pre, m) && Grouped(pre) && Block(blk, m, e)
    ensures TaggedBelow(pre + blk, m + 1) && Grouped(pre + blk)
  {
    BlockTagged(blk, m, e);
    var ps := pre + blk;
    forall j, k | 0 <= j <= k < |ps| ensures ps[j].entryIdx <= ps[k].entryIdx {
      if k < |pre| {
        assert ps[j] == pre[j] && ps[k] == pre[k];
      } else if j < |pre| {
        assert ps[j] == pre[j] && ps[k] == blk[k - |pre|];
      } else {
        assert ps[j] == blk[j - |pre|] && ps[k] == blk[k - |pre|];
      }
    }
    forall k | 0 <= k < |ps| ensures ps[k].entryIdx < m + 1 {
      if k < |pre| {
        assert ps[k] == pre[k];
      } else {
        assert ps[k] == blk[k - |pre|];
      }
    }
  }

  /**
   * Every prove instruction is tagged with an existing entry, and the
   * instructions come grouped by non-decreasing entry index.
   */
  lemma {:induction false} ProvesIndexOrder(ps: seq<CredentialProve>, slots: seq<Slot>)
    requires ProvesFor(ps, slots)
    ensures TaggedBelow(ps, |slots|) && Grouped(ps)
    decreases |slots|
  {
    if slots != [] {
      var pre, blk := ProvesForUnfold(ps, slots);
      ProvesIndexOrder(pre, Init(slots));
      IndexOrderStep(pre, blk, |slots| - 1, Last(slots).entry);
    }
  }

  lemma AttributesStep(pre: seq<CredentialProve>, blk: seq<CredentialProve>, slots: seq<Slot>)
    requires slots != []
    requires AttributesMatch(pre, Init(slots)) && Block(blk, |slots| - 1, Last(slots).entry)
    ensures AttributesMatch(pre + blk, slots)
  {
    BlockMembers(blk, |slots| - 1, Last(slots).entry);
    forall i: nat, r, v ensures AttributeProve(i, r, v) in pre + blk <==> i < |slots| && (r, v) in slots[i].entry.attrs {
      assert AttributeProve(i, r, v) in pre + blk <==> AttributeProve(i, r, v) in pre || AttributeProve(i, r, v) in blk;
      if i < |slots| - 1 {
        assert Init(slots)[i] == slots[i];
      }
    }
  }

  /** Entry i is asked to prove exactly the attribute pairs stored for its pair. */
  lemma {:induction false} ProvesAttributes(ps: seq<CredentialProve>, slots: seq<Slot>)
    requires ProvesFor(ps, slots)
    ensures AttributesMatch(ps, slots)
    decreases |slots|
  {
    if slots != [] {
      var pre, blk := ProvesForUnfold(ps, slots);
      ProvesAttributes(pre, Init(slots));
      AttributesStep(pre, blk, slots);
    }
  }

  lemma PredicatesStep(pre: seq<CredentialProve>, blk: seq<CredentialProve>, slots: seq<Slot>)
    requires slots != []
    requires PredicatesMatch(pre, Init(slots)) && Block(blk, |slots| - 1, Last(slots).entry)
    ensures PredicatesMatch(pre + blk, slots)
  {
    BlockMembers(blk, |slots| - 1, Last(slots).entry);
    forall i: nat, r ensures PredicateProve(i, r) in pre + blk <==> i < |slots| && r in slots[i].entry.preds {
      assert PredicateProve(i, r) in pre + blk <==> PredicateProve(i, r) in pre || PredicateProve(i, r) in blk;
      if i < |slots| - 1 {
        assert Init(slots)[i] == slots[i];
      }
    }
  }

  /** Entry i is asked to prove exactly the predicate referents stored for its pair. */
  lemma {:induction false} ProvesPredicates(ps: seq<CredentialProve>, slots: seq<Slot>)
    requires ProvesFor(ps, slots)
    ensures PredicatesMatch(ps, slots)
    decreases |slots|
  {
    if slots != [] {
      var pre, blk := ProvesForUnfold(ps, slots);
      ProvesPredicates(pre, Init(slots));
      PredicatesStep(pre, blk, slots);
    }
  }

  /** Counting distributes over concatenation. */
  lemma {:induction false} CountConcat(a: seq<CredentialProve>, b: seq<CredentialProve>, idx: nat, attribute: bool)
    ensures CountTagged(a + b, idx, attribute) == CountTagged(a, idx, attribute) + CountTagged(b, idx, attribute)
    decreases |b|
  {
    if b == [] {
      assert a + b == a;
    } else {
      assert Init(a + b) == a + Init(b);
      assert Last(a + b) == Last(b);
      CountConcat(a, Init(b), idx, attribute);
    }
  }

  /** Counting a run of instructions that all match, or that all fail to match. */
  lemma {:induction false} CountUniform(ps: seq<CredentialProve>, idx: nat, attribute: bool, matches: bool)
    requires forall k | 0 <= k < |ps| :: (ps[k].entryIdx == idx && ps[k].AttributeProve? == attribute) == matches
    ensures CountTagged(ps, idx, attribute) == if matches then |ps| else 0
    decreases |ps|
  {
    if ps != [] {
      CountUniform(Init(ps), idx, attribute, matches);
    }
  }

  /** The size of the stored set that entry `e` asks to prove, attributes or predicates. */
  function SetSize(e: Entry, attribute: bool): (n: nat) {
    if attribute then |e.attrs| else |e.preds|
  }

  /** The counts within one block: its own attributes or predicates, nothing for other indices. */
  lemma BlockCounts(blk: seq<CredentialProve>, idx: nat, e: Entry, i: nat, attribute: bool)
    requires Block(blk, idx, e)
    ensures CountTagged(blk, i, attribute) == if i == idx then SetSize(e, attribute) else 0
  {
    var na := |e.attrs|;
    assert blk == blk[..na] + blk[na..];
    AttributeBlockMembers(blk[..na], idx, e.attrs);
    PredicateBlockMembers(blk[na..], idx, e.preds);
    CountConcat(blk[..na], blk[na..], i, attribute);
    CountUniform(blk[..na], i, attribute, i == idx && attribute);
    CountUniform(blk[na..], i, attribute, i == idx && !attribute);
  }

  lemma CountsStep(pre: seq<CredentialProve>, blk: seq<CredentialProve>, slots: seq<Slot>, i: nat, attribute: bool)
    requires slots != []
    requires CountTagged(pre, i, attribute) == if i < |slots| - 1 then SetSize(Init(slots)[i].entry, attribute) else 0
    requires Block(blk, |slots| - 1, Last(slots).entry)
    ensures CountTagged(pre + blk, i, attribute) == if i < |slots| then SetSize(slots[i].entry, attribute) else 0
  {
    CountConcat(pre, blk, i, attribute);
    BlockCounts(blk, |slots| - 1, Last(slots).entry, i, attribute);
  }

  /**
   * For entry i, the number of attribute instructions tagged i is the size of
   * its attribute set and the number of predicate instructions the size of its
   * predicate set; no instruction is tagged with an index past the last entry.
   */
  lemma {:induction false} ProvesCounts(ps: seq<CredentialProve>, slots: seq<Slot>, i: nat, attribute: bool)
    requires ProvesFor(ps, slots)
    ensures CountTagged(ps, i, attribute) == if i < |slots| then SetSize(slots[i].entry, attribute) else 0
    decreases |slots|
  {
    if slots != [] {
      var pre, blk := ProvesForUnfold(ps, slots);
      ProvesCounts(pre, Init(slots), i, attribute);
      CountsStep(pre, blk, slots, i, attribute);
    }
  }

  // ---------------------------------------------------------------------------
  // The catalogs survive the split into parallel lists
  // ---------------------------------------------------------------------------

  /** The ids paired with handles are exactly the listed ids. */
  lemma {:induction false} ZipKeys(ids: seq<string>, handles: seq<Handle>)
    requires |ids| == |handles|
    ensures forall x :: x in Zip(ids, handles) <==> x in ids
    decreases |ids|
  {
    if ids != [] {
      ZipKeys(Init(ids), Init(handles));
      assert ids == Init(ids) + [Last(ids)];
    }
  }

  /** Pairing distinct ids with handles position by position: each id maps to the handle at its position. */
  lemma {:induction false} ZipLookup(ids: seq<string>, handles: seq<Handle>)
    requires |ids| == |handles|
    requires forall i, j | 0 <= i < j < |ids| :: ids[i] != ids[j]
    ensures forall k | 0 <= k < |ids| :: ids[k] in Zip(ids, handles) && Zip(ids, handles)[ids[k]] == handles[k]
    decreases |ids|
  {
    if ids != [] {
      var p := Init(ids);
      assert forall i, j | 0 <= i < j < |p| :: p[i] != p[j] by {
        forall i, j | 0 <= i < j < |p| ensures p[i] != p[j] {
          assert p[i] == ids[i] && p[j] == ids[j];
        }
      }
      ZipLookup(p, Init(handles));
      forall k | 0 <= k < |ids| ensures ids[k] in Zip(ids, handles) && Zip(ids, handles)[ids[k]] == handles[k] {
        if k < |ids| - 1 {
          assert ids[k] == p[k] && handles[k] == Init(handles)[k];
          assert ids[k] != Last(ids);
        }
      }
    }
  }

  /**
   * `schema_ids`/`schemas` (and `cred_def_ids`/`cred_defs`) as `create` builds
   * them are parallel: pairing them back position by position gives the catalog.
   */
  lemma CatalogRoundTrip(catalog: Dict<string, Handle>)
    requires catalog.Valid()
    ensures |catalog.keys| == |CatalogHandles(catalog)|
    ensures Zip(catalog.keys, CatalogHandles(catalog)) == catalog.items
  {
    var z := Zip(catalog.keys, CatalogHandles(catalog));
    ZipKeys(catalog.keys, CatalogHandles(catalog));
    ZipLookup(catalog.keys, CatalogHandles(catalog));
    forall x | x in catalog.items ensures x in z && z[x] == catalog.items[x] {
      var k :| 0 <= k < |catalog.keys| && catalog.keys[k] == x;
    }
  }
}
