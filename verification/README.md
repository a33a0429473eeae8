# anoncreds Python wrapper: presentation assembly

This project models the part of the anoncreds Python wrapper
(`wrappers/python/anoncreds/types.py`) that does real bookkeeping before it hands
things to the native engine:

- `PresentCredentials`, the holder-side aggregate that records, for each credential
  object and each optional timestamp, which attribute referents (with their
  revealed flag) and which predicate referents to disclose, and which revocation
  state to use. It also records self-attested values.
- The list building of `Presentation.create`. The engine receives a flat list of
  credential entries and a flat list of prove instructions, and it matches each
  instruction to its entry purely by position (`entry_idx`). The schema and
  credential-definition catalogs are split into parallel id and handle lists.
- The list building of `Presentation.verify`. Revocation registry definitions
  become a list of handles. Every registry state supplied for a definition
  becomes a revocation entry that names the definition by its position in that
  list. An empty entry list is passed on as "none".

Engine objects are opaque `Handle`s (`engine.dfy`). A credential object is
identified by its handle: a Python dict keys it by object identity. Python
dicts are `Dicts.Dict`, an insertion-ordered map (`dicts.dfy`). The aggregate is the
class `PresentCreds.PresentCredentials`, whose methods update its `entries` and
`selfAttest` fields in place. Each method that updates `entries` is proved against a
specification function (`EnsureEntry`, `WithAttributes`, `WithPredicates`), and lemmas state what
those functions do. `Presentation.Create` and `PresentationVerify.Verify` return
the argument record they would pass to `bindings.create_presentation` and
`bindings.verify_presentation` (`CreateCall`, `VerifyCall`). Their nested loops
are proved against `Slots`/`CredentialEntries`/`ProvesFor` and
`RevocationEntries`, and the lemmas below relate those back to the inputs.

Python's iteration order over a `set` is unspecified. The loops that emit the
prove instructions of one entry therefore pick the set elements in an arbitrary
order (`:|`). Every property is stated independently of that order.

`Presentation.create` passes its own `self_attest` argument to the engine, not the
`self_attest` map collected by `PresentCredentials.add_self_attested`. The model
keeps that: `Create` ensures `call.selfAttest == selfAttest`.

## Model

| member | source | states |
|---|---|---|
| PresentCreds.PresentCredentials.constructor | wrappers/python/anoncreds/types.py:302-304 | a new aggregate has no credentials and no self-attested values |
| PresentCreds.PresentCredentials.AddSelfAttested | wrappers/python/anoncreds/types.py:306-308 | self-attested values are merged: every new key gets the new value, old keys not in the argument keep theirs, no key is lost; no argument changes nothing; the entries are untouched |
| PresentCreds.PresentCredentials.GetEntry | wrappers/python/anoncreds/types.py:310-324 | the new entries are `EnsureEntry` of the old ones; the returned entry is the one now stored for (cred, timestamp); self-attested values are untouched; the aggregate stays well formed |
| PresentCreds.EnsureEntryEffect | wrappers/python/anoncreds/types.py:310-324 | a missing pair is created with empty attribute and predicate sets; an existing pair keeps its sets; a given revocation state replaces the stored one, while an absent one keeps it (or gives none for a new pair); no other (credential, timestamp) pair appears, disappears or changes, and every other credential's dictionary, timestamp order included, stays as it was; a new credential or timestamp goes to the end of its dictionary's insertion order, and existing ones keep their place |
| PresentCreds.RevStateLastWriteWins | wrappers/python/anoncreds/types.py:317-323 | over two calls on one pair, the revocation state is the second one given, else the first one given, else what was stored before; an absent state never clears a stored one |
| PresentCreds.PresentCredentials.AddAttributes | wrappers/python/anoncreds/types.py:326-338 | the new entries are `WithAttributes` of the old ones; self-attested values are untouched; the aggregate stays well formed |
| PresentCreds.UnionPairs | wrappers/python/anoncreds/types.py:337-338 | the loop leaves the entry's attribute set united with (referent, reveal) for exactly the referents given |
| PresentCreds.AddAttributesEffect | wrappers/python/anoncreds/types.py:326-338 | with no referents nothing changes; otherwise the pair exists and its attribute set is the old one (or empty) united with {(r, reveal)} for every referent; its predicates are kept; its revocation state is the given one, else the stored one, else none; every other pair is unchanged and every other credential's dictionary, timestamp order included, stays as it was; a new credential or timestamp goes to the end of its dictionary's order and existing ones keep their place |
| PresentCreds.AddAttributesIdempotent | wrappers/python/anoncreds/types.py:337-338 | repeating the same `add_attributes` call changes nothing, because the attributes are kept in a set |
| PresentCreds.PresentCredentials.AddPredicates | wrappers/python/anoncreds/types.py:340-351 | the new entries are `WithPredicates` of the old ones; self-attested values are untouched; the aggregate stays well formed |
| PresentCreds.UnionReferents | wrappers/python/anoncreds/types.py:350-351 | the loop leaves the entry's predicate set united with exactly the referents given |
| PresentCreds.AddPredicatesEffect | wrappers/python/anoncreds/types.py:340-351 | with no referents nothing changes; otherwise the pair exists and its predicate set is the old one (or empty) united with the referents; its attributes are kept; its revocation state is the given one, else the stored one, else none; every other pair is unchanged and every other credential's dictionary, timestamp order included, stays as it was; a new credential or timestamp goes to the end of its dictionary's order and existing ones keep their place |
| Presentation.AttributeProves | wrappers/python/anoncreds/types.py:395-398 | one attribute instruction per (referent, reveal) pair of the set, each tagged with the entry index, nothing else, in any order |
| Presentation.PredicateProves | wrappers/python/anoncreds/types.py:399-402 | one predicate instruction per referent of the set, each tagged with the entry index, nothing else, in any order |
| Presentation.Flatten | wrappers/python/anoncreds/types.py:385-402 | the credential entries are one per (credential, timestamp) pair, in insertion order, and the instruction list is block k (attributes, then predicates) for entry k, one block after the other |
| Presentation.FlattenCredential | wrappers/python/anoncreds/types.py:388-402 | the inner loop keeps the earlier entries and appends one entry per timestamp of the credential, in insertion order, carrying the credential's handle, the timestamp and that pair's revocation state; each gets its block of instructions, so entries and instructions stay in step |
| Presentation.Create | wrappers/python/anoncreds/types.py:354-415 | the engine call gets the flattened entries and instructions, the `self_attest` argument, the request and master secret, and the catalog ids in insertion order alongside the handles in the same order |
| Presentation.SlotsBijection | wrappers/python/anoncreds/types.py:387-389 | every position of the flattened order is a stored (credential, timestamp) pair carrying its stored entry; every stored pair appears; no pair appears twice; so there are exactly as many positions as stored pairs |
| Presentation.CreateEntries | wrappers/python/anoncreds/types.py:387-394 | entry k handed to the engine carries the credential handle, the timestamp and the revocation state of the k-th stored pair, and there is one entry per stored pair |
| Presentation.ProvesIndexOrder | wrappers/python/anoncreds/types.py:387-402 | every instruction's entry index is less than the number of entries, and the instructions are grouped by non-decreasing entry index |
| Presentation.ProvesAttributes | wrappers/python/anoncreds/types.py:389-398 | there is an attribute instruction (i, r, reveal) exactly when i is an entry and (r, reveal) is in the attribute set of the i-th pair |
| Presentation.ProvesPredicates | wrappers/python/anoncreds/types.py:389-402 | there is a predicate instruction (i, r) exactly when i is an entry and r is in the predicate set of the i-th pair |
| Presentation.ProvesCounts | wrappers/python/anoncreds/types.py:389-402 | the number of attribute (or predicate) instructions tagged i is the size of the i-th pair's attribute (or predicate) set, and zero for an index past the last entry |
| Presentation.CatalogRoundTrip | wrappers/python/anoncreds/types.py:369-384 | `schema_ids` and `schemas` (and the credential-definition lists) have the same length, and pairing them position by position gives back exactly the catalog |
| PresentationVerify.Verify | wrappers/python/anoncreds/types.py:423-473 | the engine call gets the presentation, the request and the schema and credential-definition handles, the definition handles in the order given, and the revocation entries `RevocationEntries` builds; when there are none it gets "none" instead of an empty list |
| PresentationVerify.AppendTimestampEntries | wrappers/python/anoncreds/types.py:456-463 | the inner loop appends one entry per timestamp of the definition's states, in insertion order, each tagged with the definition's position and carrying that timestamp's state |
| PresentationVerify.RevocationEntriesSound | wrappers/python/anoncreds/types.py:449-464 | every revocation entry names a listed definition by position; its timestamp is one supplied under that definition's id, with that timestamp's state; entries are grouped by definition in list order |
| PresentationVerify.RevocationEntriesComplete | wrappers/python/anoncreds/types.py:449-464 | every state supplied under the id of a listed definition becomes an entry that names that definition's position |
| PresentationVerify.EntriesPointAtDefinitions | wrappers/python/anoncreds/types.py:454-464 | the position an entry carries selects, in the definition handle list, the definition whose id keyed the entry's states, so states under ids that no listed definition has are dropped |
| PresentationVerify.NoEntriesIffNoStates | wrappers/python/anoncreds/types.py:455-472 | the entry list is empty (and "none" is passed) exactly when no listed definition has a non-empty set of supplied states |

## Left out

- The `bindings.*` calls into the native engine are not modelled. `create_presentation`, `verify_presentation` and the `CredentialEntry`, `CredentialProve` and `RevocationEntry` constructors are foreign code. `Create` and `Verify` return the arguments they would pass; the signed presentation and the boolean verdict are not modelled.
- Loading objects from JSON when an argument is not already an engine object (`isinstance` checks and `*.load`) is left out: every input is taken as an already loaded handle.
- The `rev_state` argument given as a JSON string, and its truthiness test, are left out. An absent state is `None`, a given one is `Some(handle)`.
- The default arguments (`reveal=True`, `timestamp=None`, `rev_state=None`) are not modelled: callers pass every argument explicitly.
- `verify` with `rev_reg_defs=None` (its default) raises a `TypeError` when it iterates `None`. The model takes a required sequence instead.
- The order in which Python iterates a `set` is not modelled. The instructions of one entry may come in any order, and every lemma holds for all orders.
- The other engine objects the model touches appear only as opaque handles: schemas and credential definitions (the catalog handles), the presentation request, the master secret, the presentation, revocation registry definitions and revocation states. A definition's `id`, which the source reads through the `RevocationRegistryDefinition.id` getter, is an input field of `RegistryDefinition`, not a lookup in the engine. `to_json`, the other getters, the other operations of those classes (revocation registry `update`/`revoke`, `CredentialRevocationState` creation and `update`, `CredentialRevocationConfig`) and their creation functions are out of scope.
- Timestamps are unbounded integers; whatever width the engine gives them is not modelled.
- The aggregate keeps a copy of a revocation state's handle, taken when `add_attributes`/`add_predicates` is called, not a reference to the mutable `CredentialRevocationState` object. In the source `create` reads `rev_state.handle` only when it builds the entries, so a `CredentialRevocationState.update` between the add call and `create` hands the engine the updated handle; the model hands it the handle stored at the add call.
- Aliasing of the entry list that `_get_entry` returns is not modelled. `AddAttributes`/`AddPredicates` update the stored entry explicitly, which has the same effect.
