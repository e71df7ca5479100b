/** The decoy pairings of lib/Decoy.js over the slots of lib/SlotRegistry.js. Encryption is ideal: a slot opens with
    the key it was sealed with, and with no other. Vaults are resolved paths, so that equal paths are the same vault. */
module Decoy {
  import opened Wrappers

  type Vault = string
  type Key = nat
  type Salt = nat

  /** The key derivation of a registry's salt. */
  type Derive = (string, Salt) -> Key

  datatype Mapping = Mapping(vault: Vault, decoy: Vault, key: Key)
  datatype Payload = Manager(mappings: seq<Mapping>) | Duress(vault: Vault, decoy: Vault)
  datatype Slot = Sealed(key: Key, payload: Payload) | Filler(noise: nat)
  datatype Record = Record(slots: seq<Slot>, kdf: Salt, epoch: nat)

  type Registry = Option<Record>

  const SLOT_COUNT: nat := 16

  // ----- slots -----

  function TryDecrypt(k: Key, slot: Slot): Option<Payload> {
    if slot.Sealed? && slot.key == k then Some(slot.payload) else None
  }

  predicate Opens(k: Key, slot: Slot, wanted: Payload -> bool) {
    TryDecrypt(k, slot).Some? && wanted(TryDecrypt(k, slot).value)
  }

  function FirstMatch(k: Key, slots: seq<Slot>, wanted: Payload -> bool): Option<Payload> {
    if slots == [] then None
    else
      var before := FirstMatch(k, slots[..|slots| - 1], wanted);
      if before.None? && Opens(k, slots[|slots| - 1], wanted) then TryDecrypt(k, slots[|slots| - 1]) else before
  }

  /** `findSlot`: the first slot that opens and matches. Every slot is tried, whatever is found. */
  method FindSlot(k: Key, slots: seq<Slot>, wanted: Payload -> bool) returns (found: Option<Payload>, trials: nat)
    ensures found == FirstMatch(k, slots, wanted) && trials == |slots|
  {
    found, trials := None, 0;
    for i := 0 to |slots|
      invariant found == FirstMatch(k, slots[..i], wanted) && trials == i
    {
      assert slots[..i + 1][..i] == slots[..i];
      var o := TryDecrypt(k, slots[i]);
      trials := trials + 1;
      if o.Some? && found.None? && wanted(o.value) { found := o; }
    }
    assert slots[..|slots|] == slots;
  }

  lemma {:induction false} FirstMatchIs(k: Key, slots: seq<Slot>, wanted: Payload -> bool)
    ensures var r := FirstMatch(k, slots, wanted);
            if r.Some? then exists s :: s in slots && Opens(k, s, wanted) && TryDecrypt(k, s) == r
            else forall s :: s in slots ==> !Opens(k, s, wanted)
  {
    if slots == [] {
    } else {
      var front, last := slots[..|slots| - 1], slots[|slots| - 1];
      FirstMatchIs(k, front, wanted);
      assert forall s :: s in slots <==> s in front || s == last;
    }
  }

  /** The one that is found is the first. */
  lemma {:induction false} FirstMatchIsFirst(k: Key, slots: seq<Slot>, wanted: Payload -> bool) returns (i: nat)
    requires FirstMatch(k, slots, wanted).Some?
    ensures i < |slots| && slots[i].Sealed? && slots[i].key == k && wanted(slots[i].payload)
    ensures FirstMatch(k, slots, wanted) == Some(slots[i].payload)
    ensures forall j :: 0 <= j < i && slots[j].Sealed? && slots[j].key == k ==> !wanted(slots[j].payload)
  {
    var front := slots[..|slots| - 1];
    if FirstMatch(k, front, wanted).Some? {
      i := FirstMatchIsFirst(k, front, wanted);
    } else {
      i := |slots| - 1;
      FirstMatchIs(k, front, wanted);
      assert forall j :: 0 <= j < i ==> slots[j] in front && !Opens(k, front[j], wanted);
    }
  }

  /** `shuffle`, with the random picks given: a permutation of the slots. */
  method Shuffle(a: array<Slot>, picks: nat -> nat)
    modifies a
    ensures multiset(a[..]) == multiset(old(a[..]))
  {
    var i := a.Length - 1;
    while i > 0
      invariant i < a.Length
      invariant multiset(a[..]) == multiset(old(a[..]))
    {
      var j := picks(i) % (i + 1);
      a[i], a[j] := a[j], a[i];
      i := i - 1;
    }
  }

  // ----- the registry's contents -----

  function DuressSlot(m: Mapping): Slot { Sealed(m.key, Duress(m.vault, m.decoy)) }

  /** The slots that carry something: the manager's, and one for each mapping. */
  function Meaningful(km: Key, mappings: seq<Mapping>): (slots: seq<Slot>)
    ensures |slots| == |mappings| + 1
  {
    [Sealed(km, Manager(mappings))] + seq(|mappings|, i requires 0 <= i < |mappings| => DuressSlot(mappings[i]))
  }

  predicate Distinct(mappings: seq<Mapping>) {
    forall i, j :: 0 <= i < j < |mappings| ==> mappings[i].vault != mappings[j].vault
  }

  /** The record holds these mappings under this manager key, among fillers and in any order. */
  ghost predicate Represents(r: Record, km: Key, mappings: seq<Mapping>) {
    && |r.slots| == SLOT_COUNT && Distinct(mappings)
    && (forall s :: s in r.slots ==> s.Filler? || s in Meaningful(km, mappings))
    && (forall s :: s in Meaningful(km, mappings) ==> s in r.slots)
  }

  predicate IsManager(p: Payload) { p.Manager? }

  function LoadManager(r: Record, k: Key): Option<Payload> { FirstMatch(k, r.slots, IsManager) }

  function Resolve(r: Record, vault: Vault, k: Key): Option<Vault> {
    var found := FirstMatch(k, r.slots, (p: Payload) => p.Duress? && p.vault == vault);
    if found.Some? && found.value.Duress? then Some(found.value.decoy) else None
  }

  /** The mapping of a vault. */
  function Find(mappings: seq<Mapping>, vault: Vault): Option<Mapping> {
    if mappings == [] then None
    else if mappings[|mappings| - 1].vault == vault then Some(mappings[|mappings| - 1])
    else Find(mappings[..|mappings| - 1], vault)
  }

  lemma {:induction false} FindIs(mappings: seq<Mapping>, vault: Vault)
    ensures Find(mappings, vault).None? <==> forall m :: m in mappings ==> m.vault != vault
    ensures Find(mappings, vault).Some? ==>
      Find(mappings, vault).value in mappings && Find(mappings, vault).value.vault == vault
  {
    if mappings == [] {
    } else {
      var front, last := mappings[..|mappings| - 1], mappings[|mappings| - 1];
      FindIs(front, vault);
      assert forall m :: m in mappings <==> m in front || m == last;
    }
  }

  /** The manager's key opens the list, and no other key does. */
  lemma ManagerOpens(r: Record, km: Key, mappings: seq<Mapping>, k: Key)
    requires Represents(r, km, mappings)
    ensures LoadManager(r, k) == if k == km then Some(Manager(mappings)) else None
  {
    FirstMatchIs(k, r.slots, IsManager);
    var own := Sealed(km, Manager(mappings));
    assert own == Meaningful(km, mappings)[0];
    assert k == km ==> Opens(k, own, IsManager);
  }

  /** A vault resolves to a decoy exactly when the list pairs it with that decoy under the key of the password. */
  lemma ResolveIsLookup(r: Record, km: Key, mappings: seq<Mapping>, vault: Vault, k: Key)
    requires Represents(r, km, mappings)
    ensures var m := Find(mappings, vault);
            Resolve(r, vault, k) == if m.Some? && m.value.key == k then Some(m.value.decoy) else None
  {
    hide Represents;
    var want := (p: Payload) => p.Duress? && p.vault == vault;
    FirstMatchIs(k, r.slots, want);
    FindIs(mappings, vault);
    var m, found := Find(mappings, vault), FirstMatch(k, r.slots, want);
    if m.Some? {
      HasDuressSlot(r, km, mappings, m.value);
      assert m.value.key == k ==> Opens(k, DuressSlot(m.value), want);
    }
    if found.Some? {
      var s :| s in r.slots && Opens(k, s, want) && TryDecrypt(k, s) == found;
      var own := OwnMapping(r, km, mappings, s);
      FindUnique(r, km, mappings, own);
    }
  }

  lemma HasDuressSlot(r: Record, km: Key, mappings: seq<Mapping>, m: Mapping)
    requires Represents(r, km, mappings) && m in mappings
    ensures DuressSlot(m) in r.slots
  {
    var i :| 0 <= i < |mappings| && mappings[i] == m;
    assert Meaningful(km, mappings)[i + 1] == DuressSlot(m);
  }

  lemma OwnMapping(r: Record, km: Key, mappings: seq<Mapping>, s: Slot) returns (m: Mapping)
    requires Represents(r, km, mappings) && s in r.slots && s.Sealed? && s.payload.Duress?
    ensures m in mappings && s == DuressSlot(m)
  {
    var i :| 0 <= i < |mappings| + 1 && Meaningful(km, mappings)[i] == s;
    m := mappings[i - 1];
  }

  lemma FindUnique(r: Record, km: Key, mappings: seq<Mapping>, m: Mapping)
    requires Represents(r, km, mappings) && m in mappings
    ensures Find(mappings, m.vault) == Some(m)
  {
    FindIs(mappings, m.vault);
  }

  // ----- changing the registry -----

  datatype Error =
    | Missing | SameVault | NoDecoyPassword | NoManagerPassword | SamePassword // refused arguments
    | WrongManager | Changed | TooLarge | TooMany

  /** What a change has read and computed when it comes to writing: the new list, and the epoch it was based on. */
  datatype Pending = Pending(km: Key, mappings: seq<Mapping>, kdf: Salt, base: nat)

  function Without(mappings: seq<Mapping>, vault: Vault): seq<Mapping> {
    if mappings == [] then []
    else
      var front, last := Without(mappings[..|mappings| - 1], vault), mappings[|mappings| - 1];
      if last.vault == vault then front else front + [last]
  }

  lemma {:induction false} WithoutMembers(mappings: seq<Mapping>, vault: Vault)
    ensures var w := Without(mappings, vault);
            && |w| <= |mappings| && (forall m :: m in w <==> m in mappings && m.vault != vault)
            && (Distinct(mappings) ==> Distinct(w))
  {
    if mappings == [] {
    } else {
      var front, last := mappings[..|mappings| - 1], mappings[|mappings| - 1];
      var wf := Without(front, vault);
      WithoutMembers(front, vault);
      assert forall m :: m in mappings <==> m in front || m == last;
      if Distinct(mappings) {
        forall i | 0 <= i < |wf| ensures wf[i].vault != last.vault { assert wf[i] in front; }
      }
    }
  }

  lemma {:induction false} WithoutFind(mappings: seq<Mapping>, vault: Vault, v: Vault)
    ensures |Without(mappings, vault)| <= |mappings|
    ensures |Without(mappings, vault)| == |mappings| <==> Find(mappings, vault).None?
    ensures Find(Without(mappings, vault), v) == if v == vault then None else Find(mappings, v)
  {
    if mappings == [] {
    } else {
      var front, last := mappings[..|mappings| - 1], mappings[|mappings| - 1];
      WithoutFind(front, vault, v);
      assert (Without(front, vault) + [last])[..|Without(front, vault)|] == Without(front, vault);
    }
  }

  /** What remains without a vault: the other pairings, as they were. */
  lemma WithoutIs(mappings: seq<Mapping>, vault: Vault)
    ensures |Without(mappings, vault)| == |mappings| <==> Find(mappings, vault).None?
    ensures forall v :: Find(Without(mappings, vault), v) == if v == vault then None else Find(mappings, v)
    ensures Distinct(mappings) ==> Distinct(Without(mappings, vault))
  {
    WithoutMembers(mappings, vault);
    WithoutFind(mappings, vault, vault);
    forall v ensures Find(Without(mappings, vault), v) == if v == vault then None else Find(mappings, v) {
      WithoutFind(mappings, vault, v);
    }
  }

  lemma AddOne(mappings: seq<Mapping>, m: Mapping)
    requires Distinct(mappings) && Find(mappings, m.vault).None?
    ensures Distinct(mappings + [m])
    ensures forall v :: Find(mappings + [m], v) == if v == m.vault then Some(m) else Find(mappings, v)
  {
    FindIs(mappings, m.vault);
    assert (mappings + [m])[..|mappings|] == mappings;
    assert forall i :: 0 <= i < |mappings| ==> mappings[i] in mappings;
  }

  datatype Pairing = Pairing(vault: Vault, decoy: Vault, decoyPassword: string, managerPassword: string)

  /** The arguments that `setDecoy` refuses, in order. */
  function Refused(a: Pairing): Option<Error> {
    if a.vault == "" || a.decoy == "" then Some(Missing)
    else if a.vault == a.decoy then Some(SameVault)
    else if a.decoyPassword == "" then Some(NoDecoyPassword)
    else if a.managerPassword == "" then Some(NoManagerPassword)
    else if a.decoyPassword == a.managerPassword then Some(SamePassword)
    else None
  }

  function MappingOf(derive: Derive, a: Pairing, kdf: Salt): Mapping {
    Mapping(a.vault, a.decoy, derive(a.decoyPassword, kdf))
  }

  /** The first half of `setDecoy`: what it will write, from the registry it reads. */
  function LoadSet(derive: Derive, reg: Registry, a: Pairing, newSalt: Salt): Result<Pending, Error> {
    if Refused(a).Some? then Err(Refused(a).value)
    else
      var kdf := if reg.Some? then reg.value.kdf else newSalt;
      var km := derive(a.managerPassword, kdf);
      var loaded := if reg.Some? then LoadManager(reg.value, km) else Some(Manager([]));
      if loaded.None? || !loaded.value.Manager? then Err(WrongManager)
      else
        Ok(Pending(km, Without(loaded.value.mappings, a.vault) + [MappingOf(derive, a, kdf)], kdf, CurrentEpoch(reg)))
  }

  /** The first half of `removeDecoy`; None when the vault has no pairing. */
  function LoadRemove(derive: Derive, reg: Registry, vault: Vault, managerPassword: string)
    : Result<Option<Pending>, Error>
  {
    if reg.None? then Err(WrongManager)
    else
      var km := derive(managerPassword, reg.value.kdf);
      var loaded := LoadManager(reg.value, km);
      if loaded.None? || !loaded.value.Manager? then Err(WrongManager)
      else
        var rest := Without(loaded.value.mappings, vault);
        if |rest| == |loaded.value.mappings| then Ok(None)
        else Ok(Some(Pending(km, rest, reg.value.kdf, reg.value.epoch)))
  }

  function CurrentEpoch(reg: Registry): nat { if reg.None? then 0 else reg.value.epoch }

  /** Why a rebuild fails: a payload that does not fit its slot, or too many slots. */
  function RebuildError(fits: Payload -> bool, mappings: seq<Mapping>): Option<Error> {
    var misfit := exists i :: 0 <= i < |mappings| && !fits(DuressSlot(mappings[i]).payload);
    if !fits(Manager(mappings)) || misfit then Some(TooLarge)
    else if |mappings| + 1 > SLOT_COUNT then Some(TooMany)
    else None
  }

  /** The registry of one machine, as the operations of one process at a time change it; `km` and `mappings` are what
      the registry means. */
  class Store {
    const derive: Derive
    const fits: Payload -> bool
    var registry: Registry
    ghost var km: Key
    ghost var mappings: seq<Mapping>

    ghost predicate Valid()
      reads this
    {
      if registry.None? then mappings == []
      else Represents(registry.value, km, mappings) && 1 <= |mappings| < SLOT_COUNT
    }

    constructor (derive: Derive, fits: Payload -> bool)
      ensures Valid() && registry == None && mappings == [] && this.derive == derive && this.fits == fits
    {
      this.derive, this.fits, registry, mappings := derive, fits, None, [];
    }

    /** `rebuild`: the whole registry anew, shuffled among fillers. */
    method Rebuild(p: Pending, noise: nat -> nat, picks: nat -> nat) returns (error: Option<Error>)
      requires Distinct(p.mappings)
      modifies this
      ensures error == RebuildError(fits, p.mappings)
      ensures error == Some(TooLarge) <==> !fits(Manager(p.mappings))
                                           || exists m :: m in p.mappings && !fits(Duress(m.vault, m.decoy))
      ensures error == Some(TooMany) <==> error != Some(TooLarge) && |p.mappings| > 15
      ensures error.Some? ==> error == Some(TooLarge) || error == Some(TooMany)
      ensures error.Some? ==> registry == old(registry) && km == old(km) && mappings == old(mappings)
      ensures error.None? ==> (
        && registry.Some? && registry.value.kdf == p.kdf && registry.value.epoch == p.base + 1
        && km == p.km && mappings == p.mappings && |mappings| < SLOT_COUNT && Represents(registry.value, km, mappings))
    {
      error := RebuildError(fits, p.mappings);
      if error.Some? { return; }
      var slots := Meaningful(p.km, p.mappings);
      var fillers := seq(SLOT_COUNT - |slots|, i requires 0 <= i < SLOT_COUNT - |slots| => Filler(noise(i)));
      var all := slots + fillers;
      var a := new Slot[|all|](i requires 0 <= i < |all| => all[i]);
      assert a[..] == all;
      Shuffle(a, picks);
      PermutedMembers(a[..], all);
      registry := Some(Record(a[..], p.kdf, p.base + 1));
      km, mappings := p.km, p.mappings;
      assert forall s :: s in fillers ==> s.Filler?;
    }

    /** `setDecoy`. Only success changes anything, and then only the pairing of this vault. */
    method SetDecoy(a: Pairing, newSalt: Salt, noise: nat -> nat, picks: nat -> nat) returns (error: Option<Error>)
      requires Valid()
      modifies this
      ensures Valid()
      ensures error.Some? ==> registry == old(registry) && km == old(km) && mappings == old(mappings)
      ensures error.None? ==> (
        && registry.Some? && km == derive(a.managerPassword, registry.value.kdf)
        && registry.value.kdf == (if old(registry).Some? then old(registry).value.kdf else newSalt)
        && forall v :: Find(mappings, v) == if v == a.vault then Some(MappingOf(derive, a, registry.value.kdf))
                                            else Find(old(mappings), v))
      ensures error == (
        if a.vault == "" || a.decoy == "" then Some(Missing)
        else if a.vault == a.decoy then Some(SameVault)
        else if a.decoyPassword == "" then Some(NoDecoyPassword)
        else if a.managerPassword == "" then Some(NoManagerPassword)
        else if a.decoyPassword == a.managerPassword then Some(SamePassword)
        else if old(registry).Some? && derive(a.managerPassword, old(registry).value.kdf) != old(km) then
          Some(WrongManager)
        else
          var kdf := if old(registry).Some? then old(registry).value.kdf else newSalt;
          RebuildError(fits, Without(old(mappings), a.vault) + [MappingOf(derive, a, kdf)]))
    {
      hide Represents, DuressSlot, Meaningful;
      var p := LoadSet(derive, registry, a, newSalt);
      if registry.Some? { ManagerOpens(registry.value, km, mappings, derive(a.managerPassword, registry.value.kdf)); }
      if p.Err? { return Some(p.error); }
      RepresentsDistinct(registry, km, mappings);
      WithoutIs(mappings, a.vault);
      AddOne(Without(mappings, a.vault), MappingOf(derive, a, p.value.kdf));
      error := Rebuild(p.value, noise, picks);
    }

    /** `removeDecoy`. The registry goes with its last pairing. */
    method RemoveDecoy(vault: Vault, managerPassword: string, noise: nat -> nat, picks: nat -> nat)
      returns (error: Option<Error>, removed: bool)
      requires Valid()
      modifies this
      ensures Valid()
      ensures !removed ==> registry == old(registry) && mappings == old(mappings)
      ensures km == old(km)
      ensures removed ==> forall v :: Find(mappings, v) == if v == vault then None else Find(old(mappings), v)
      ensures removed ==> (registry.None? <==> Without(old(mappings), vault) == [])
      ensures removed && registry.Some? ==> old(registry).Some? && registry.value.kdf == old(registry).value.kdf
      ensures removed <==> error.None? && Find(old(mappings), vault).Some?
      ensures error == (
        if old(registry).None? || derive(managerPassword, old(registry).value.kdf) != old(km) then Some(WrongManager)
        else if Find(old(mappings), vault).None? || Without(old(mappings), vault) == [] then None
        else RebuildError(fits, Without(old(mappings), vault)))
    {
      hide Represents, DuressSlot, Meaningful;
      removed := false;
      var p := LoadRemove(derive, registry, vault, managerPassword);
      if registry.Some? { ManagerOpens(registry.value, km, mappings, derive(managerPassword, registry.value.kdf)); }
      WithoutIs(mappings, vault);
      if p.Err? { return Some(p.error), false; }
      if p.value.None? { return None, false; }
      RepresentsDistinct(registry, km, mappings);
      var pending := p.value.value;
      if pending.mappings == [] {
        registry, mappings := None, [];
        return None, true;
      }
      error := Rebuild(pending, noise, picks);
      removed := error.None?;
    }

    /** `resolveDecoy`: the decoy to open instead, exactly when the vault is paired and the password is the decoy's. */
    method ResolveDecoy(vault: Vault, password: string) returns (decoy: Option<Vault>)
      requires Valid()
      ensures registry.None? ==> decoy == None
      ensures registry.Some? ==>
        (var m := Find(mappings, vault);
         decoy == if m.Some? && m.value.key == derive(password, registry.value.kdf) then Some(m.value.decoy) else None)
    {
      if registry.None? { return None; }
      var r := registry.value;
      var k := derive(password, r.kdf);
      var found, _ := FindSlot(k, r.slots, (p: Payload) => p.Duress? && p.vault == vault);
      ResolveIsLookup(r, km, mappings, vault, k);
      decoy := if found.Some? && found.value.Duress? then Some(found.value.decoy) else None;
      assert decoy == Resolve(r, vault, k);
    }
  }

  lemma PermutedMembers(a: seq<Slot>, b: seq<Slot>)
    requires multiset(a) == multiset(b)
    ensures |a| == |b| && forall s :: s in a <==> s in b
  {
    assert |multiset(a)| == |a| && |multiset(b)| == |b|;
    forall s ensures s in a <==> s in b { assert s in multiset(a) <==> s in multiset(b); }
  }

  lemma RepresentsDistinct(reg: Registry, km: Key, mappings: seq<Mapping>)
    requires if reg.None? then mappings == [] else Represents(reg.value, km, mappings)
    ensures Distinct(mappings)
  {}

  // ----- writers in different processes -----

  /** A pending change is written: the epoch must not have moved, and the registry then means the pending list. */
  ghost predicate Commits(fits: Payload -> bool, before: Registry, p: Pending, after: Registry) {
    && CurrentEpoch(before) == p.base
    && if p.mappings == [] then before.Some? && after == None
       else RebuildError(fits, p.mappings).None? && after.Some? && Represents(after.value, p.km, p.mappings)
            && after.value.kdf == p.kdf && after.value.epoch == p.base + 1
  }

  /** A history of the registry under successful writes of any processes. */
  ghost predicate Writes(fits: Payload -> bool, states: seq<Registry>, changes: seq<Pending>) {
    && |states| == |changes| + 1
    && forall i :: 0 <= i < |changes| ==> Commits(fits, states[i], changes[i], states[i + 1])
  }

  /** The registry is not emptied between the i-th state and the j-th. */
  ghost predicate KeptBetween(states: seq<Registry>, i: nat, j: nat) {
    forall x :: i < x <= j < |states| ==> states[x].Some?
  }

  /** While the registry is not emptied the epoch counts the writes. */
  lemma {:induction false} EpochCounts(fits: Payload -> bool, states: seq<Registry>, changes: seq<Pending>, i: nat,
                                       j: nat)
    requires Writes(fits, states, changes) && KeptBetween(states, i, j) && i <= j < |states|
    ensures CurrentEpoch(states[j]) == CurrentEpoch(states[i]) + (j - i)
  {
    if i == j {
    } else {
      EpochCounts(fits, states, changes, i, j - 1);
      assert Commits(fits, states[j - 1], changes[j - 1], states[j]) && states[j].Some?;
    }
  }

  /** What a process sets out to do; the salt is used if it finds no registry. */
  datatype Operation = Pair(a: Pairing, newSalt: Salt) | Unpair(vault: Vault, managerPassword: string)

  /** The change that the operation computes from the registry it reads, if it computes one. */
  function Load(derive: Derive, reg: Registry, op: Operation): Option<Pending> {
    match op
    case Pair(a, newSalt) =>
      var p := LoadSet(derive, reg, a, newSalt);
      if p.Ok? then Some(p.value) else None
    case Unpair(vault, managerPassword) =>
      var p := LoadRemove(derive, reg, vault, managerPassword);
      if p.Ok? then p.value else None
  }

  /** Operations of any processes, interleaved: the j-th to be written was computed from an earlier state. */
  ghost predicate Interleaving(derive: Derive, fits: Payload -> bool, states: seq<Registry>, changes: seq<Pending>,
                               ops: seq<Operation>, loads: seq<nat>) {
    && Writes(fits, states, changes) && |ops| == |loads| == |changes| && states[0] == None
    && forall j :: 0 <= j < |changes| ==> loads[j] <= j && Load(derive, states[loads[j]], ops[j]) == Some(changes[j])
  }

  /** No two registries are made with the same salt. */
  ghost predicate FreshSalts(states: seq<Registry>, changes: seq<Pending>)
    requires |states| == |changes| + 1
  {
    forall i, j :: 0 <= i < j < |changes| && states[i].None? && states[j].None? ==> changes[i].kdf != changes[j].kdf
  }

  /** Every change is what its operation would have computed at the moment of writing. */
  ghost predicate Serial(derive: Derive, states: seq<Registry>, changes: seq<Pending>, ops: seq<Operation>)
    requires |states| == |changes| + 1 && |ops| == |changes|
  {
    forall j :: 0 <= j < |changes| ==> Load(derive, states[j], ops[j]) == Some(changes[j])
  }

  /** No registry that a change is written to has come into being after the change was computed. */
  ghost predicate NoneRemade(states: seq<Registry>, loads: seq<nat>)
    requires |states| == |loads| + 1
  {
    forall j :: 0 <= j < |loads| ==> states[j].None? || KeptBetween(states, loads[j], j)
  }

  /** What a writer can check beside the epoch: the salt is the one that it has read. */
  predicate SameSalt(read: Registry, found: Registry) {
    found.Some? ==> read.Some? && read.value.kdf == found.value.kdf
  }

  ghost predicate SaltsAgree(states: seq<Registry>, loads: seq<nat>)
    requires |states| == |loads| + 1
  {
    forall j :: 0 <= j < |loads| && loads[j] <= j ==> SameSalt(states[loads[j]], states[j])
  }

  lemma LoadIsOf(derive: Derive, reg: Registry, op: Operation)
    requires Load(derive, reg, op).Some?
    ensures var p := Load(derive, reg, op).value;
            p.base == CurrentEpoch(reg) && (reg.Some? ==> p.kdf == reg.value.kdf) && (reg.None? ==> op.Pair?)
  {}

  lemma EpochIsPositive(fits: Payload -> bool, states: seq<Registry>, changes: seq<Pending>, k: nat)
    requires Writes(fits, states, changes) && k < |states| && states[0] == None
    ensures states[k].None? <==> CurrentEpoch(states[k]) == 0
  {
    if k > 0 { assert Commits(fits, states[k - 1], changes[k - 1], states[k]); }
  }

  /** While the registry is not emptied, a change that was computed from an earlier state and is written at a later one
      is exactly what it would have been computed to be at the later one. */
  lemma KeptIsSerial(derive: Derive, fits: Payload -> bool, states: seq<Registry>, changes: seq<Pending>,
                     op: Operation, i: nat, j: nat)
    requires Writes(fits, states, changes) && KeptBetween(states, i, j) && i <= j < |changes|
    requires Load(derive, states[i], op) == Some(changes[j])
    ensures Load(derive, states[j], op) == Some(changes[j])
  {
    EpochCounts(fits, states, changes, i, j);
    assert Commits(fits, states[j], changes[j], states[j + 1]);
  }

  /** And so is one that makes the registry, whatever was there in between. */
  lemma CreationIsSerial(derive: Derive, fits: Payload -> bool, states: seq<Registry>, changes: seq<Pending>,
                         op: Operation, i: nat, j: nat)
    requires Writes(fits, states, changes) && states[0] == None && i <= j < |changes| && states[j].None?
    requires Load(derive, states[i], op) == Some(changes[j])
    ensures Load(derive, states[j], op) == Some(changes[j])
  {
    LoadIsOf(derive, states[i], op);
    assert Commits(fits, states[j], changes[j], states[j + 1]);
    EpochIsPositive(fits, states, changes, i);
  }

  /** A registry stems from the change that made it, and has its salt, when every change was computed from a registry
      with the salt of the one that it is written to. */
  lemma {:induction false} StemsFrom(derive: Derive, fits: Payload -> bool, states: seq<Registry>,
                                     changes: seq<Pending>, ops: seq<Operation>, loads: seq<nat>, k: nat)
    returns (c: nat)
    requires Interleaving(derive, fits, states, changes, ops, loads) && SaltsAgree(states, loads)
    requires k < |states| && states[k].Some?
    ensures c < k && states[c].None? && KeptBetween(states, c, k) && changes[c].kdf == states[k].value.kdf
  {
    hide Load, Represents;
    c := k - 1;
    assert Commits(fits, states[c], changes[c], states[k]);
    if states[c].Some? {
      LoadIsOf(derive, states[loads[c]], ops[c]);
      assert SameSalt(states[loads[c]], states[c]);
      c := StemsFrom(derive, fits, states, changes, ops, loads, c);
    }
  }

  /** When the successful operations of interleaved processes are serializable. The check of the epoch is enough exactly
      when no change is written to a registry that was made, after one was emptied, since the change was computed; and
      that is what comparing the salts as well would find out. */
  lemma SerializableExactly(derive: Derive, fits: Payload -> bool, states: seq<Registry>, changes: seq<Pending>,
                            ops: seq<Operation>, loads: seq<nat>)
    requires Interleaving(derive, fits, states, changes, ops, loads) && FreshSalts(states, changes)
    ensures Serial(derive, states, changes, ops) <==> NoneRemade(states, loads)
    ensures Serial(derive, states, changes, ops) <==> SaltsAgree(states, loads)
  {
    hide Load, Represents;
    if Serial(derive, states, changes, ops) {
      forall j | 0 <= j < |changes| ensures SameSalt(states[loads[j]], states[j]) {
        SerialIsSameSalt(derive, fits, states, changes, ops, loads, j);
      }
    }
    if SaltsAgree(states, loads) {
      forall j | 0 <= j < |changes| && states[j].Some? ensures KeptBetween(states, loads[j], j) {
        assert SameSalt(states[loads[j]], states[j]);
        var c := StemsFrom(derive, fits, states, changes, ops, loads, j);
        var d := StemsFrom(derive, fits, states, changes, ops, loads, loads[j]);
        assert c == d;
      }
    }
    if NoneRemade(states, loads) {
      forall j | 0 <= j < |changes| ensures Load(derive, states[j], ops[j]) == Some(changes[j]) {
        if states[j].None? {
          CreationIsSerial(derive, fits, states, changes, ops[j], loads[j], j);
        } else {
          KeptIsSerial(derive, fits, states, changes, ops[j], loads[j], j);
        }
      }
    }
  }

  lemma SerialIsSameSalt(derive: Derive, fits: Payload -> bool, states: seq<Registry>, changes: seq<Pending>,
                         ops: seq<Operation>, loads: seq<nat>, j: nat)
    requires Interleaving(derive, fits, states, changes, ops, loads) && j < |changes|
    requires Load(derive, states[j], ops[j]) == Some(changes[j])
    ensures SameSalt(states[loads[j]], states[j])
  {
    LoadIsOf(derive, states[j], ops[j]);
    LoadIsOf(derive, states[loads[j]], ops[j]);
    EpochIsPositive(fits, states, changes, j);
    EpochIsPositive(fits, states, changes, loads[j]);
  }

  /** A record with the slots in order. */
  function Arrange(km: Key, mappings: seq<Mapping>, kdf: Salt, epoch: nat): Record {
    var fillers := if |mappings| < SLOT_COUNT then SLOT_COUNT - 1 - |mappings| else 0;
    Record(Meaningful(km, mappings) + seq(fillers, (i: int) => Filler(0)), kdf, epoch)
  }

  lemma ArrangeRepresents(km: Key, mappings: seq<Mapping>, kdf: Salt, epoch: nat)
    requires Distinct(mappings) && |mappings| < SLOT_COUNT
    ensures Represents(Arrange(km, mappings, kdf, epoch), km, mappings)
    ensures Arrange(km, mappings, kdf, epoch).kdf == kdf && Arrange(km, mappings, kdf, epoch).epoch == epoch
  {}

  /** When the registry is emptied in between, the epoch starts again, and a stale change can pass for a current one.
      A pairing is made and removed again, another manager makes a registry of their own with a fresh salt, and then a
      change is written that was computed before the removal: the second manager's pairing is gone, and so is their
      password, for whatever vaults, passwords and salts. */
  lemma EmptyingLosesAnUpdate(derive: Derive, fits: Payload -> bool, first: Pairing, stale: Pairing, second: Pairing,
                              salt1: Salt, salt2: Salt)
    returns (states: seq<Registry>, changes: seq<Pending>, ops: seq<Operation>, loads: seq<nat>)
    requires Refused(first).None? && Refused(stale).None? && Refused(second).None?
    requires first.managerPassword == stale.managerPassword
    requires first.vault != second.vault && first.vault != stale.vault && second.vault != stale.vault
    requires RebuildError(fits, [MappingOf(derive, first, salt1)]).None?
    requires RebuildError(fits, [MappingOf(derive, second, salt2)]).None?
    requires RebuildError(fits, [MappingOf(derive, first, salt1), MappingOf(derive, stale, salt1)]).None?
    ensures ops == [Pair(first, salt1), Unpair(first.vault, first.managerPassword),
                    Pair(second, salt2), Pair(stale, salt1)]
    ensures loads == [0, 1, 2, 1] && Interleaving(derive, fits, states, changes, ops, loads)
    ensures salt1 != salt2 ==> FreshSalts(states, changes) && !Serial(derive, states, changes, ops)
    ensures Find(changes[2].mappings, second.vault) == Some(MappingOf(derive, second, salt2))
    ensures Find(changes[3].mappings, second.vault).None? && changes[3].km == derive(first.managerPassword, salt1)
  {
    hide Represents, Meaningful, Arrange, Refused, RebuildError;
    var k1, k2 := derive(first.managerPassword, salt1), derive(second.managerPassword, salt2);
    var m1, m2 := MappingOf(derive, first, salt1), MappingOf(derive, second, salt2);
    var m3 := MappingOf(derive, stale, salt1);
    var s1, s3, s4 := Arrange(k1, [m1], salt1, 1), Arrange(k2, [m2], salt2, 1), Arrange(k1, [m1, m3], salt1, 2);
    ArrangeRepresents(k1, [m1], salt1, 1);
    ArrangeRepresents(k2, [m2], salt2, 1);
    ArrangeRepresents(k1, [m1, m3], salt1, 2);
    FirstChange(derive, first, salt1);
    FirstChange(derive, second, salt2);
    OnlyPairing(derive, s1, first, m1);
    StaleChange(derive, s1, stale, m1);
    FindShort(m1, m2, m3);
    var c0, c1 := Pending(k1, [m1], salt1, 0), Pending(k1, [], salt1, 1);
    var c2, c3 := Pending(k2, [m2], salt2, 0), Pending(k1, [m1, m3], salt1, 1);
    states, changes := [None, Some(s1), None, Some(s3), Some(s4)], [c0, c1, c2, c3];
    ops := [Pair(first, salt1), Unpair(first.vault, first.managerPassword), Pair(second, salt2), Pair(stale, salt1)];
    loads := [0, 1, 2, 1];
    hide LoadSet, LoadRemove, Find;
    assert Commits(fits, None, c0, Some(s1)) && Commits(fits, Some(s1), c1, None);
    assert Commits(fits, None, c2, Some(s3)) && Commits(fits, Some(s3), c3, Some(s4));
    if salt1 != salt2 {
      assert !KeptBetween(states, loads[3], 3) by { assert states[2].None?; }
      SerializableExactly(derive, fits, states, changes, ops, loads);
    }
  }

  /** The change that makes the registry. */
  lemma FirstChange(derive: Derive, a: Pairing, salt: Salt)
    requires Refused(a).None?
    ensures LoadSet(derive, None, a, salt)
            == Ok(Pending(derive(a.managerPassword, salt), [MappingOf(derive, a, salt)], salt, 0))
  {
    hide Refused;
    assert Without([], a.vault) + [MappingOf(derive, a, salt)] == [MappingOf(derive, a, salt)];
  }

  /** The removal of its only pairing. */
  lemma OnlyPairing(derive: Derive, s: Record, a: Pairing, m: Mapping)
    requires Represents(s, derive(a.managerPassword, s.kdf), [m]) && m.vault == a.vault
    ensures LoadRemove(derive, Some(s), a.vault, a.managerPassword)
            == Ok(Some(Pending(derive(a.managerPassword, s.kdf), [], s.kdf, s.epoch)))
  {
    hide Represents;
    ManagerOpens(s, derive(a.managerPassword, s.kdf), [m], derive(a.managerPassword, s.kdf));
    assert [m][..0] == [];
    assert Without([m], a.vault) == [];
  }

  /** The addition of a second one. */
  lemma StaleChange(derive: Derive, s: Record, a: Pairing, m: Mapping)
    requires Represents(s, derive(a.managerPassword, s.kdf), [m]) && Refused(a).None? && m.vault != a.vault
    ensures var km, m2 := derive(a.managerPassword, s.kdf), MappingOf(derive, a, s.kdf);
            forall salt :: LoadSet(derive, Some(s), a, salt) == Ok(Pending(km, [m, m2], s.kdf, s.epoch))
  {
    hide Represents, Refused;
    ManagerOpens(s, derive(a.managerPassword, s.kdf), [m], derive(a.managerPassword, s.kdf));
    assert [m][..0] == [];
    assert Without([m], a.vault) == [m];
    assert [m] + [MappingOf(derive, a, s.kdf)] == [m, MappingOf(derive, a, s.kdf)];
  }

  lemma FindShort(m1: Mapping, m2: Mapping, m3: Mapping)
    requires m1.vault != m2.vault && m2.vault != m3.vault
    ensures Find([m2], m2.vault) == Some(m2) && Find([m1, m3], m2.vault) == None
  {
    assert [m1, m3][..1] == [m1] && [m1][..0] == [] && [m2][..0] == [];
    assert Find([m1], m2.vault) == None;
  }
}
