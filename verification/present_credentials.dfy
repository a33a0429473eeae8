/**
 * The holder-side aggregate that says what a presentation discloses: for each
 * credential object and each (optional) timestamp, the attribute referents with
 * their revealed flags, the predicate referents and the revocation state to use.
 */
module PresentCreds {
  import opened Wrappers
  import opened Engine
  import opened Dicts

  /** `None` is the "no timestamp" key, distinct from every integer timestamp. */
  type Timestamp = Option<int>
  type Referent = string

  /** The triple `[attrs, preds, rev_state]` stored for one (credential, timestamp) pair. */
  datatype Entry = Entry(attrs: set<(Referent, bool)>, preds: set<Referent>, revState: Option<Handle>)

  /** `entries`: credential -> timestamp -> entry, both levels in insertion order. */
  type Entries = Dict<Credential, Dict<Timestamp, Entry>>

  ghost predicate EntriesValid(d: Entries) {
    d.Valid() && forall c | c in d.items :: d.items[c].Valid()
  }

  ghost predicate HasSlot(d: Entries, cred: Credential, timestamp: Timestamp) {
    cred in d.items && timestamp in d.items[cred].items
  }

  function SlotOf(d: Entries, cred: Credential, timestamp: Timestamp): (e: Entry)
    requires HasSlot(d, cred, timestamp)
  {
    d.items[cred].items[timestamp]
  }

  /** The attribute pairs that `add_attributes` adds for these referents. */
  function AttrPairs(referents: seq<Referent>, revealed: bool): (pairs: set<(Referent, bool)>) {
    set k | 0 <= k < |referents| :: (referents[k], revealed)
  }

  /** The predicate referents that `add_predicates` adds. */
  function PredSet(referents: seq<Referent>): (refs: set<Referent>) {
    set k | 0 <= k < |referents| :: referents[k]
  }

  /**
   * Replaces the entry of an existing (credential, timestamp) pair, in place:
   * neither dictionary's insertion order moves.
   */
  function SetSlot(d: Entries, cred: Credential, timestamp: Timestamp, e: Entry): (r: Entries)
    requires HasSlot(d, cred, timestamp)
    ensures EntriesValid(d) ==> EntriesValid(r)
    ensures HasSlot(r, cred, timestamp) && SlotOf(r, cred, timestamp) == e
    ensures r.keys == d.keys && r.items[cred].keys == d.items[cred].keys
    ensures forall c | c in d.items && c != cred :: c in r.items && r.items[c] == d.items[c]
  {
    d.Put(cred, d.items[cred].Put(timestamp, e))
  }

  /**
   * The effect of `_get_entry` on `entries`: the pair is created lazily with empty
   * sets and the given state; an existing pair only has its state replaced, and
   * only when a state is given.
   */
  function EnsureEntry(d: Entries, cred: Credential, timestamp: Timestamp, revState: Option<Handle>): (r: Entries)
    ensures EntriesValid(d) ==> EntriesValid(r)
    ensures HasSlot(r, cred, timestamp)
  {
    var d1 := if cred in d.items then d else d.Put(cred, Empty());
    var credTs := d1.items[cred];
    var credTs' :=
      if timestamp !in credTs.items then credTs.Put(timestamp, Entry({}, {}, revState))
      else if revState.Some? then credTs.Put(timestamp, credTs.items[timestamp].(revState := revState))
      else credTs;
    d1.Put(cred, credTs')
  }

  /** The effect of `add_attributes(cred, *referents, reveal, timestamp, rev_state)`. */
  function WithAttributes(d: Entries, cred: Credential, referents: seq<Referent>, revealed: bool,
                          timestamp: Timestamp, revState: Option<Handle>): (r: Entries)
    ensures EntriesValid(d) ==> EntriesValid(r)
  {
    if referents == [] then d
    else
      var d' := EnsureEntry(d, cred, timestamp, revState);
      var e := SlotOf(d', cred, timestamp);
      SetSlot(d', cred, timestamp, e.(attrs := e.attrs + AttrPairs(referents, revealed)))
  }

  /** The effect of `add_predicates(cred, *referents, timestamp, rev_state)`. */
  function WithPredicates(d: Entries, cred: Credential, referents: seq<Referent>,
                          timestamp: Timestamp, revState: Option<Handle>): (r: Entries)
    ensures EntriesValid(d) ==> EntriesValid(r)
  {
    if referents == [] then d
    else
      var d' := EnsureEntry(d, cred, timestamp, revState);
      var e := SlotOf(d', cred, timestamp);
      SetSlot(d', cred, timestamp, e.(preds := e.preds + PredSet(referents)))
  }

  /** What every other pair sees of an update to one pair: nothing. */
  ghost predicate OthersUnchanged(d: Entries, r: Entries, cred: Credential, timestamp: Timestamp) {
    forall c, t | (c, t) != (cred, timestamp) ::
      (HasSlot(r, c, t) <==> HasSlot(d, c, t)) && (HasSlot(d, c, t) ==> SlotOf(r, c, t) == SlotOf(d, c, t))
  }

  /**
   * The insertion order `_get_entry` leaves: a new credential goes to the end of the
   * outer order, a new timestamp to the end of its credential's order, and every
   * other credential's dictionary, its order included, stays as it was.
   */
  ghost predicate OrderAfterEntry(d: Entries, r: Entries, cred: Credential, timestamp: Timestamp) {
    && cred in r.items
    && r.keys == (if cred in d.items then d.keys else d.keys + [cred])
    && (forall c | c in d.items && c != cred :: c in r.items && r.items[c] == d.items[c])
    && r.items[cred].keys ==
         (if HasSlot(d, cred, timestamp) then d.items[cred].keys
          else if cred in d.items then d.items[cred].keys + [timestamp]
          else [timestamp])
  }

  /**
   * `_get_entry` creates the pair lazily with empty sets; a given revocation state
   * replaces the stored one, an absent one keeps it; no other pair changes; a new
   * credential or timestamp goes to the end of its dictionary's order, and every
   * other credential's dictionary stays as it was.
   */
  lemma EnsureEntryEffect(d: Entries, cred: Credential, timestamp: Timestamp, revState: Option<Handle>)
    ensures var r := EnsureEntry(d, cred, timestamp, revState);
      && SlotOf(r, cred, timestamp).attrs == (if HasSlot(d, cred, timestamp) then SlotOf(d, cred, timestamp).attrs else {})
      && SlotOf(r, cred, timestamp).preds == (if HasSlot(d, cred, timestamp) then SlotOf(d, cred, timestamp).preds else {})
      && SlotOf(r, cred, timestamp).revState ==
           (if revState.Some? then revState
            else if HasSlot(d, cred, timestamp) then SlotOf(d, cred, timestamp).revState
            else None)
      && OthersUnchanged(d, r, cred, timestamp)
      && OrderAfterEntry(d, r, cred, timestamp)
  {
    EnsureEntryOthers(d, cred, timestamp, revState);
    EnsureEntryOrder(d, cred, timestamp, revState);
  }

  /** Helper: `_get_entry` leaves every other pair as it was. */
  lemma EnsureEntryOthers(d: Entries, cred: Credential, timestamp: Timestamp, revState: Option<Handle>)
    ensures OthersUnchanged(d, EnsureEntry(d, cred, timestamp, revState), cred, timestamp)
  {
  }

  /** Helper: the insertion order `_get_entry` leaves. */
  lemma EnsureEntryOrder(d: Entries, cred: Credential, timestamp: Timestamp, revState: Option<Handle>)
    ensures OrderAfterEntry(d, EnsureEntry(d, cred, timestamp, revState), cred, timestamp)
  {
  }

  /** Helper: replacing the pair's entry keeps what `_get_entry` left for every other pair and for the order. */
  lemma SetSlotKeeps(d: Entries, d1: Entries, cred: Credential, timestamp: Timestamp, e: Entry)
    requires HasSlot(d1, cred, timestamp)
    requires OthersUnchanged(d, d1, cred, timestamp) && OrderAfterEntry(d, d1, cred, timestamp)
    ensures OthersUnchanged(d, SetSlot(d1, cred, timestamp, e), cred, timestamp)
    ensures OrderAfterEntry(d, SetSlot(d1, cred, timestamp, e), cred, timestamp)
  {
  }

  /**
   * `add_attributes` with referents unites the pair's attribute set with the new
   * (referent, reveal) pairs; predicates stay, the state follows `_get_entry`, no
   * other pair changes, and the insertion order is the one `_get_entry` leaves.
   * Without referents nothing changes at all.
   */
  lemma AddAttributesEffect(d: Entries, cred: Credential, referents: seq<Referent>, revealed: bool,
                            timestamp: Timestamp, revState: Option<Handle>)
    ensures var r := WithAttributes(d, cred, referents, revealed, timestamp, revState);
      && (referents == [] ==> r == d)
      && (referents != [] ==>
            && HasSlot(r, cred, timestamp)
            && SlotOf(r, cred, timestamp).attrs ==
                 (if HasSlot(d, cred, timestamp) then SlotOf(d, cred, timestamp).attrs else {}) + AttrPairs(referents, revealed)
            && SlotOf(r, cred, timestamp).preds ==
                 (if HasSlot(d, cred, timestamp) then SlotOf(d, cred, timestamp).preds else {})
            && SlotOf(r, cred, timestamp).revState ==
                 (if revState.Some? then revState
                  else if HasSlot(d, cred, timestamp) then SlotOf(d, cred, timestamp).revState
                  else None)
            && OthersUnchanged(d, r, cred, timestamp)
            && OrderAfterEntry(d, r, cred, timestamp))
  {
    if referents != [] {
      EnsureEntryEffect(d, cred, timestamp, revState);
      var d1 := EnsureEntry(d, cred, timestamp, revState);
      var e := SlotOf(d1, cred, timestamp);
      SetSlotKeeps(d, d1, cred, timestamp, e.(attrs := e.attrs + AttrPairs(referents, revealed)));
    }
  }

  /**
   * `add_predicates` with referents unites the pair's predicate set with the new
   * referents; attributes stay, the state follows `_get_entry`, no other pair
   * changes, and the insertion order is the one `_get_entry` leaves. Without
   * referents nothing changes at all.
   */
  lemma AddPredicatesEffect(d: Entries, cred: Credential, referents: seq<Referent>,
                            timestamp: Timestamp, revState: Option<Handle>)
    ensures var r := WithPredicates(d, cred, referents, timestamp, revState);
      && (referents == [] ==> r == d)
      && (referents != [] ==>
            && HasSlot(r, cred, timestamp)
            && SlotOf(r, cred, timestamp).preds ==
                 (if HasSlot(d, cred, timestamp) then SlotOf(d, cred, timestamp).preds else {}) + PredSet(referents)
            && SlotOf(r, cred, timestamp).attrs ==
                 (if HasSlot(d, cred, timestamp) then SlotOf(d, cred, timestamp).attrs else {})
            && SlotOf(r, cred, timestamp).revState ==
                 (if revState.Some? then revState
                  else if HasSlot(d, cred, timestamp) then SlotOf(d, cred, timestamp).revState
                  else None)
            && OthersUnchanged(d, r, cred, timestamp)
            && OrderAfterEntry(d, r, cred, timestamp))
  {
    if referents != [] {
      EnsureEntryEffect(d, cred, timestamp, revState);
      var d1 := EnsureEntry(d, cred, timestamp, revState);
      var e := SlotOf(d1, cred, timestamp);
      SetSlotKeeps(d, d1, cred, timestamp, e.(preds := e.preds + PredSet(referents)));
    }
  }

  /**
   * Revocation state over two calls on the same pair: a given state always wins,
   * an absent one never clears what an earlier call stored.
   */
  lemma RevStateLastWriteWins(d: Entries, cred: Credential, timestamp: Timestamp, first: Option<Handle>, second: Option<Handle>)
    ensures var r := EnsureEntry(EnsureEntry(d, cred, timestamp, first), cred, timestamp, second);
      SlotOf(r, cred, timestamp).revState ==
        if second.Some? then second
        else if first.Some? then first
        else if HasSlot(d, cred, timestamp) then SlotOf(d, cred, timestamp).revState
        else None
  {
    EnsureEntryEffect(d, cred, timestamp, first);
    EnsureEntryEffect(EnsureEntry(d, cred, timestamp, first), cred, timestamp, second);
  }

  /** Writing back the entry a pair already has changes nothing. */
  lemma SetSlotSame(d: Entries, cred: Credential, timestamp: Timestamp)
    requires HasSlot(d, cred, timestamp)
    ensures SetSlot(d, cred, timestamp, SlotOf(d, cred, timestamp)) == d
  {
    var credTs := d.items[cred];
    assert credTs.items[timestamp := credTs.items[timestamp]] == credTs.items;
    assert d.items[cred := credTs] == d.items;
  }

  /** On a pair that exists, `_get_entry` at most replaces the revocation state. */
  lemma EnsureEntryExisting(d: Entries, cred: Credential, timestamp: Timestamp, revState: Option<Handle>)
    requires HasSlot(d, cred, timestamp)
    ensures EnsureEntry(d, cred, timestamp, revState) ==
      SetSlot(d, cred, timestamp, if revState.Some? then SlotOf(d, cred, timestamp).(revState := revState) else SlotOf(d, cred, timestamp))
  {
    if revState.None? {
      SetSlotSame(d, cred, timestamp);
    }
  }

  /** Sets deduplicate: adding the same referents twice is the same as adding them once. */
  lemma AddAttributesIdempotent(d: Entries, cred: Credential, referents: seq<Referent>, revealed: bool,
                                timestamp: Timestamp, revState: Option<Handle>)
    ensures var d' := WithAttributes(d, cred, referents, revealed, timestamp, revState);
      WithAttributes(d', cred, referents, revealed, timestamp, revState) == d'
  {
    if referents != [] {
      var d' := WithAttributes(d, cred, referents, revealed, timestamp, revState);
      var e := SlotOf(d', cred, timestamp);
      assert revState.Some? ==> e.revState == revState;
      EnsureEntryExisting(d', cred, timestamp, revState);
      assert e.(revState := e.revState) == e;
      SetSlotSame(d', cred, timestamp);
      assert EnsureEntry(d', cred, timestamp, revState) == d';
      assert e.attrs + AttrPairs(referents, revealed) == e.attrs;
      assert e.(attrs := e.attrs) == e;
    }
  }

  /** One more referent adds its own pair. */
  lemma AttrPairsStep(referents: seq<Referent>, revealed: bool, i: nat)
    requires i < |referents|
    ensures AttrPairs(referents[..i + 1], revealed) == AttrPairs(referents[..i], revealed) + {(referents[i], revealed)}
  {
    var p := referents[..i + 1];
    forall x | x in AttrPairs(p, revealed) ensures x in AttrPairs(referents[..i], revealed) + {(referents[i], revealed)} {
      var k :| 0 <= k < |p| && x == (p[k], revealed);
      if k < i {
        assert referents[..i][k] == p[k];
      }
    }
    forall x | x in AttrPairs(referents[..i], revealed) ensures x in AttrPairs(p, revealed) {
      var k :| 0 <= k < i && x == (referents[..i][k], revealed);
      assert p[k] == referents[..i][k];
    }
    assert p[i] == referents[i];
  }

  /** One more referent adds itself. */
  lemma PredSetStep(referents: seq<Referent>, i: nat)
    requires i < |referents|
    ensures PredSet(referents[..i + 1]) == PredSet(referents[..i]) + {referents[i]}
  {
    var p := referents[..i + 1];
    forall x | x in PredSet(p) ensures x in PredSet(referents[..i]) + {referents[i]} {
      var k :| 0 <= k < |p| && x == p[k];
      if k < i {
        assert referents[..i][k] == p[k];
      }
    }
    forall x | x in PredSet(referents[..i]) ensures x in PredSet(p) {
      var k :| 0 <= k < i && x == referents[..i][k];
      assert p[k] == referents[..i][k];
    }
    assert p[i] == referents[i];
  }

  /** The loop of `add_attributes`: adds `(reft, reveal)` for each referent to the set. */
  method UnionPairs(attrs0: set<(Referent, bool)>, referents: seq<Referent>, revealed: bool) returns (attrs: set<(Referent, bool)>)
    ensures attrs == attrs0 + AttrPairs(referents, revealed)
  {
    attrs := attrs0;
    for i := 0 to |referents|
      invariant attrs == attrs0 + AttrPairs(referents[..i], revealed)
    {
      AttrPairsStep(referents, revealed, i);
      attrs := attrs + {(referents[i], revealed)};
    }
    assert referents[..|referents|] == referents;
  }

  /** The loop of `add_predicates`: adds each referent to the set. */
  method UnionReferents(preds0: set<Referent>, referents: seq<Referent>) returns (preds: set<Referent>)
    ensures preds == preds0 + PredSet(referents)
  {
    preds := preds0;
    for i := 0 to |referents|
      invariant preds == preds0 + PredSet(referents[..i])
    {
      PredSetStep(referents, i);
      preds := preds + {referents[i]};
    }
    assert referents[..|referents|] == referents;
  }

  /** Helper: writing the grown attribute set back into `_get_entry`'s result is `WithAttributes`. */
  lemma AttributesStored(d: Entries, cred: Credential, referents: seq<Referent>, revealed: bool,
                         timestamp: Timestamp, revState: Option<Handle>, d1: Entries, entry: Entry, attrs: set<(Referent, bool)>)
    requires EntriesValid(d) && referents != []
    requires d1 == EnsureEntry(d, cred, timestamp, revState)
    requires entry == SlotOf(d1, cred, timestamp)
    requires attrs == entry.attrs + AttrPairs(referents, revealed)
    ensures SetSlot(d1, cred, timestamp, entry.(attrs := attrs)) == WithAttributes(d, cred, referents, revealed, timestamp, revState)
    ensures EntriesValid(SetSlot(d1, cred, timestamp, entry.(attrs := attrs)))
  {
  }

  /** Helper: writing the grown predicate set back into `_get_entry`'s result is `WithPredicates`. */
  lemma PredicatesStored(d: Entries, cred: Credential, referents: seq<Referent>,
                         timestamp: Timestamp, revState: Option<Handle>, d1: Entries, entry: Entry, preds: set<Referent>)
    requires EntriesValid(d) && referents != []
    requires d1 == EnsureEntry(d, cred, timestamp, revState)
    requires entry == SlotOf(d1, cred, timestamp)
    requires preds == entry.preds + PredSet(referents)
    ensures SetSlot(d1, cred, timestamp, entry.(preds := preds)) == WithPredicates(d, cred, referents, timestamp, revState)
    ensures EntriesValid(SetSlot(d1, cred, timestamp, entry.(preds := preds)))
  {
  }

  /** The aggregate itself, updated in place as the holder adds what to disclose. */
  class PresentCredentials {
    var entries: Entries
    var selfAttest: map<string, string>

    ghost predicate Valid()
      reads this
    {
      EntriesValid(entries)
    }

    constructor ()
      ensures Valid()
      ensures entries.keys == [] && entries.items == map[] && selfAttest == map[]
    {
      entries := Empty();
      selfAttest := map[];
    }

    /** `add_self_attested`: a map merge where the new values win; absent or empty is a no-op. */
    method AddSelfAttested(attest: Option<map<string, string>>)
      requires Valid()
      modifies this
      ensures Valid() && entries == old(entries)
      ensures attest.None? ==> selfAttest == old(selfAttest)
      ensures attest.Some? ==> selfAttest.Keys == old(selfAttest).Keys + attest.value.Keys
      ensures attest.Some? ==> forall k | k in attest.value :: selfAttest[k] == attest.value[k]
      ensures attest.Some? ==> forall k | k in old(selfAttest) && k !in attest.value :: selfAttest[k] == old(selfAttest)[k]
    {
      if attest.Some? && |attest.value| > 0 {
        selfAttest := selfAttest + attest.value;
      }
    }

    /** `_get_entry`: creates the pair lazily and returns its entry. */
    method GetEntry(cred: Credential, timestamp: Timestamp, revState: Option<Handle>) returns (entry: Entry)
      requires Valid()
      modifies this
      ensures Valid() && selfAttest == old(selfAttest)
      ensures entries == EnsureEntry(old(entries), cred, timestamp, revState)
      ensures HasSlot(entries, cred, timestamp) && entry == SlotOf(entries, cred, timestamp)
    {
      var d := entries;
      if cred !in d.items {
        d := d.Put(cred, Empty());
      }
      var credTs := d.items[cred];
      if timestamp !in credTs.items {
        credTs := credTs.Put(timestamp, Entry({}, {}, revState));
      } else if revState.Some? {
        credTs := credTs.Put(timestamp, credTs.items[timestamp].(revState := revState));
      }
      d := d.Put(cred, credTs);
      assert d == EnsureEntry(old(entries), cred, timestamp, revState);
      entries := d;
      entry := entries.items[cred].items[timestamp];
    }

    /** `add_attributes`: nothing happens without referents; otherwise each one is added with `revealed`. */
    method AddAttributes(cred: Credential, referents: seq<Referent>, revealed: bool, timestamp: Timestamp, revState: Option<Handle>)
      requires Valid()
      modifies this
      ensures Valid() && selfAttest == old(selfAttest)
      ensures entries == WithAttributes(old(entries), cred, referents, revealed, timestamp, revState)
    {
      if |referents| == 0 {
        return;
      }
      var entry := GetEntry(cred, timestamp, revState);
      var attrs := UnionPairs(entry.attrs, referents, revealed);
      AttributesStored(old(entries), cred, referents, revealed, timestamp, revState, entries, entry, attrs);
      entries := SetSlot(entries, cred, timestamp, entry.(attrs := attrs));
    }

    /** `add_predicates`: nothing happens without referents; otherwise each one is added. */
    method AddPredicates(cred: Credential, referents: seq<Referent>, timestamp: Timestamp, revState: Option<Handle>)
      requires Valid()
      modifies this
      ensures Valid() && selfAttest == old(selfAttest)
      ensures entries == WithPredicates(old(entries), cred, referents, timestamp, revState)
    {
      if |referents| == 0 {
        return;
      }
      var entry := GetEntry(cred, timestamp, revState);
      var preds := UnionReferents(entry.preds, referents);
      PredicatesStored(old(entries), cred, referents, timestamp, revState, entries, entry, preds);
      entries := SetSlot(entries, cred, timestamp, entry.(preds := preds));
    }
  }
}
