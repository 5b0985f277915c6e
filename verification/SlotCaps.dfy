/**
 * Concurrency caps of a node's capability slots: the pool a provider may use on the
 * node, and the cap of one (provider, model) slot. No cap is not the same as a cap of 0.
 */
module SlotCaps {
  import opened Basics
  import opened Json
  import Text

  /** The engine's number coercion and `toLowerCase`; nothing is assumed of either. */
  datatype Runtime = Runtime(number: Coercion, lower: string -> string)

  /** An entry of the slot list; the provider is absent if it is not a string. */
  datatype Slot = NotAnObject | Slot(provider: Option<string>, model: Value, maxParallel: Value)

  type ModelMatch = (Option<string>, Slot) -> bool

  /** The cap one slot declares, if it declares a finite one. */
  function DeclaredCap(js: Runtime, slot: Slot): (cap: Option<nat>) {
    if slot.NotAnObject? then None
    else
      var raw := ToNumber(js.number, slot.maxParallel);
      if raw.Fin? && raw.r >= 0.0 then Some(raw.r.Floor) else None
  }

  /** A provider name as it is compared; one that is not a string counts as empty. */
  function ProviderName(js: Runtime, name: Option<string>): (p: string) {
    if name.Some? then js.lower(Text.Trim(name.value)) else ""
  }

  function WantedModel(model: Option<string>): (m: Option<string>) {
    if model.Some? && Text.Trim(model.value) != "" then Some(Text.Trim(model.value)) else None
  }

  predicate OfProvider(js: Runtime, slot: Slot, wanted: string) {
    slot.Slot? && wanted != "" && ProviderName(js, slot.provider) == wanted
  }

  /** Adding caps: an absent cap adds nothing, and two absent caps stay absent. */
  function Plus(a: Option<nat>, b: Option<nat>): (r: Option<nat>) {
    if a.None? then b else if b.None? then a else Some(a.value + b.value)
  }

  /** Which slots a cap covers: all of a provider's, or those the model matches. */
  datatype Selector =
    | ProviderSlots(wanted: string)
    | ModelSlots(wanted: string, model: Option<string>, matches: ModelMatch)

  predicate Selects(js: Runtime, selected: Selector, slot: Slot) {
    OfProvider(js, slot, selected.wanted) && (selected.ModelSlots? ==> selected.matches(selected.model, slot))
  }

  function OneSlot(js: Runtime, slot: Slot, selected: Selector): (cap: Option<nat>) {
    if Selects(js, selected, slot) then DeclaredCap(js, slot) else None
  }

  function TotalCap(js: Runtime, slots: seq<Slot>, selected: Selector): (cap: Option<nat>) {
    if slots == [] then None
    else Plus(TotalCap(js, slots[..|slots| - 1], selected), OneSlot(js, slots[|slots| - 1], selected))
  }

  /** The pool of a (node, provider): the caps of all its slots, added up. */
  function ProviderPool(js: Runtime, slots: seq<Slot>, providerType: Option<string>): (cap: Option<nat>) {
    TotalCap(js, slots, ProviderSlots(ProviderName(js, providerType)))
  }

  /** The cap of a (provider, model) slot: the caps of its duplicates, added up. */
  function SlotCap(js: Runtime, slots: seq<Slot>, providerType: Option<string>, model: Option<string>,
                   matches: ModelMatch): (cap: Option<nat>) {
    TotalCap(js, slots, ModelSlots(ProviderName(js, providerType), WantedModel(model), matches))
  }

  // ----- The source's loops -----

  method ResolveProviderMaxParallel(js: Runtime, slots: Option<seq<Slot>>, providerType: Option<string>)
    returns (total: Option<nat>)
    ensures total == if slots.Some? then ProviderPool(js, slots.value, providerType) else None
  {
    hide Text.Trim, ToNumber;
    var wanted := ProviderName(js, providerType);
    if slots.None? {
      return None;
    }
    if wanted == "" {
      NothingSelected(js, slots.value, ProviderSlots(wanted));
      return None;
    }
    var list := slots.value;
    total := None;
    for i := 0 to |list|
      invariant total == TotalCap(js, list[..i], ProviderSlots(wanted))
    {
      assert list[..i + 1][..i] == list[..i];
      if !OfProvider(js, list[i], wanted) {
        continue;
      }
      var raw := ToNumber(js.number, list[i].maxParallel);
      if !raw.Fin? || raw.r < 0.0 {
        continue;
      }
      total := Some((if total.Some? then total.value else 0) + raw.r.Floor);
    }
    assert list[..|list|] == list;
  }

  method ResolveSlotMaxParallel(js: Runtime, slots: Option<seq<Slot>>, providerType: Option<string>,
                                model: Option<string>, matches: ModelMatch)
    returns (total: Option<nat>)
    ensures total == if slots.Some? then SlotCap(js, slots.value, providerType, model, matches) else None
  {
    hide Text.Trim, ToNumber;
    var wanted, wantedModel := ProviderName(js, providerType), WantedModel(model);
    if slots.None? {
      return None;
    }
    if wanted == "" {
      NothingSelected(js, slots.value, ModelSlots(wanted, wantedModel, matches));
      return None;
    }
    var list := slots.value;
    total := None;
    for i := 0 to |list|
      invariant total == TotalCap(js, list[..i], ModelSlots(wanted, wantedModel, matches))
    {
      assert list[..i + 1][..i] == list[..i];
      if !OfProvider(js, list[i], wanted) || !matches(wantedModel, list[i]) {
        continue;
      }
      var raw := ToNumber(js.number, list[i].maxParallel);
      if !raw.Fin? || raw.r < 0.0 {
        continue;
      }
      total := Some((if total.Some? then total.value else 0) + raw.r.Floor);
    }
    assert list[..|list|] == list;
  }

  lemma {:induction false} NothingSelected(js: Runtime, slots: seq<Slot>, selected: Selector)
    requires forall slot :: slot in slots ==> !Selects(js, selected, slot)
    ensures TotalCap(js, slots, selected) == None
  {
    if slots == [] {
    } else {
      NothingSelected(js, slots[..|slots| - 1], selected);
    }
  }

  // ----- What one slot adds -----

  /** The slot names the wanted provider, up to case and surrounding space, and not nothing. */
  predicate Names(js: Runtime, slot: Slot, providerType: Option<string>) {
    && slot.Slot? && slot.provider.Some? && providerType.Some?
    && js.lower(Text.Trim(slot.provider.value)) == js.lower(Text.Trim(providerType.value)) != ""
  }

  /** `n` is the whole part of the cap the slot declares; a negative, missing or non-numeric one is none. */
  predicate Declares(js: Runtime, slot: Slot, n: int) {
    slot.Slot? &&
    var raw := ToNumber(js.number, slot.maxParallel);
    raw.Fin? && raw.r >= 0.0 && n as real <= raw.r < (n + 1) as real
  }

  predicate DeclaresNone(js: Runtime, slot: Slot) {
    slot.NotAnObject? || var raw := ToNumber(js.number, slot.maxParallel); !raw.Fin? || raw.r < 0.0
  }

  lemma DeclaredOrNone(js: Runtime, slot: Slot)
    ensures DeclaredCap(js, slot).None? <==> DeclaresNone(js, slot)
    ensures DeclaredCap(js, slot).Some? ==> Declares(js, slot, DeclaredCap(js, slot).value)
  {
    hide ToNumber;
  }

  /**
   * One more slot on a node: the pool of a provider gains the whole part of the slot's cap
   * if the slot names the provider and declares one, and stays as it is otherwise. With no
   * slot at all there is no cap, which is not a cap of zero.
   */
  lemma {:induction false} PoolOneMore(js: Runtime, slots: seq<Slot>, slot: Slot, providerType: Option<string>, n: nat)
    ensures ProviderPool(js, [], providerType) == None
    ensures var before := ProviderPool(js, slots, providerType);
            var after := ProviderPool(js, slots + [slot], providerType);
            && (!Names(js, slot, providerType) || DeclaresNone(js, slot) ==> after == before)
            && (Names(js, slot, providerType) && Declares(js, slot, n) ==>
                  after == if before.None? then Some(n) else Some(before.value + n))
  {
    hide Text.Trim, ToNumber, DeclaredCap;
    assert (slots + [slot])[..|slots|] == slots;
    DeclaredOrNone(js, slot);
    if Declares(js, slot, n) && DeclaredCap(js, slot).Some? {
      SameWholePart(js, slot, n, DeclaredCap(js, slot).value);
    }
  }

  lemma SameWholePart(js: Runtime, slot: Slot, n: nat, m: nat)
    requires Declares(js, slot, n) && Declares(js, slot, m)
    ensures n == m && !DeclaresNone(js, slot)
  {
    hide ToNumber;
  }

  /** The cap of a (provider, model) slot grows in the same way, by the slots the model matches. */
  lemma {:induction false} SlotCapOneMore(js: Runtime, slots: seq<Slot>, slot: Slot, providerType: Option<string>,
                                          model: Option<string>, matches: ModelMatch, n: nat)
    ensures SlotCap(js, [], providerType, model, matches) == None
    ensures var before := SlotCap(js, slots, providerType, model, matches);
            var after := SlotCap(js, slots + [slot], providerType, model, matches);
            var wanted := if model.Some? && Text.Trim(model.value) != "" then Some(Text.Trim(model.value)) else None;
            && (!Names(js, slot, providerType) || !matches(wanted, slot) || DeclaresNone(js, slot) ==> after == before)
            && (Names(js, slot, providerType) && matches(wanted, slot) && Declares(js, slot, n) ==>
                  after == if before.None? then Some(n) else Some(before.value + n))
  {
    hide Text.Trim, ToNumber, DeclaredCap;
    assert (slots + [slot])[..|slots|] == slots;
    DeclaredOrNone(js, slot);
    if Declares(js, slot, n) && DeclaredCap(js, slot).Some? {
      SameWholePart(js, slot, n, DeclaredCap(js, slot).value);
    }
  }

  // ----- A slot's cap lies within its provider's pool -----

  predicate Within(a: Option<nat>, b: Option<nat>) {
    a.None? || (b.Some? && a.value <= b.value)
  }

  lemma {:induction false} FewerSlotsWithin(js: Runtime, slots: seq<Slot>, some: Selector, all: Selector)
    requires forall slot :: slot in slots && Selects(js, some, slot) ==> Selects(js, all, slot)
    ensures Within(TotalCap(js, slots, some), TotalCap(js, slots, all))
  {
    hide Selects, DeclaredCap;
    if slots == [] {
    } else {
      FewerSlotsWithin(js, slots[..|slots| - 1], some, all);
    }
  }

  lemma SlotCapWithinPool(js: Runtime, slots: seq<Slot>, providerType: Option<string>, model: Option<string>,
                          matches: ModelMatch)
    ensures Within(SlotCap(js, slots, providerType, model, matches), ProviderPool(js, slots, providerType))
  {
    var wanted := ProviderName(js, providerType);
    FewerSlotsWithin(js, slots, ModelSlots(wanted, WantedModel(model), matches), ProviderSlots(wanted));
  }

  // ----- The order of the slots does not matter -----

  lemma {:induction false} TotalCapSplit(js: Runtime, a: seq<Slot>, b: seq<Slot>, selected: Selector)
    ensures TotalCap(js, a + b, selected) == Plus(TotalCap(js, a, selected), TotalCap(js, b, selected))
  {
    hide OneSlot;
    if b == [] {
      assert a + b == a;
    } else {
      assert (a + b)[..|a + b| - 1] == a + b[..|b| - 1];
      TotalCapSplit(js, a, b[..|b| - 1], selected);
    }
  }

  lemma PlusLaws(a: Option<nat>, b: Option<nat>, c: Option<nat>)
    ensures Plus(a, Plus(b, c)) == Plus(Plus(a, c), b)
  {
  }

  lemma {:induction false} TakeOut(js: Runtime, slots: seq<Slot>, i: nat, selected: Selector)
    requires i < |slots|
    ensures TotalCap(js, slots, selected)
            == Plus(TotalCap(js, slots[..i] + slots[i + 1..], selected), OneSlot(js, slots[i], selected))
  {
    var before, one, after := slots[..i], [slots[i]], slots[i + 1..];
    assert TotalCap(js, one, selected) == OneSlot(js, slots[i], selected) by {
      assert one[..0] == [];
      hide OneSlot;
    }
    hide OneSlot, Plus, TotalCap;
    TotalCapSplit(js, before, one + after, selected);
    TotalCapSplit(js, one, after, selected);
    TotalCapSplit(js, before, after, selected);
    PlusLaws(TotalCap(js, before, selected), TotalCap(js, one, selected), TotalCap(js, after, selected));
    assert slots == before + (one + after);
  }

  /** A permutation of a non-empty list holds its last slot somewhere, and permutes the rest elsewhere. */
  lemma FindLast(slots: seq<Slot>, slots': seq<Slot>) returns (i: nat)
    requires slots != [] && multiset(slots) == multiset(slots')
    ensures i < |slots'| && slots'[i] == slots[|slots| - 1]
    ensures multiset(slots[..|slots| - 1]) == multiset(slots'[..i] + slots'[i + 1..])
  {
    var n := |slots| - 1;
    var last := slots[n];
    assert slots == slots[..n] + [last];
    assert last in multiset(slots');
    i :| 0 <= i < |slots'| && slots'[i] == last;
    assert slots' == slots'[..i] + [last] + slots'[i + 1..];
    calc {
      multiset(slots[..n]);
      multiset(slots) - multiset{last};
      multiset(slots') - multiset{last};
      multiset(slots'[..i]) + multiset(slots'[i + 1..]);
      multiset(slots'[..i] + slots'[i + 1..]);
    }
  }

  lemma {:induction false} TotalCapIgnoresOrder(js: Runtime, slots: seq<Slot>, slots': seq<Slot>, selected: Selector)
    requires multiset(slots) == multiset(slots')
    ensures TotalCap(js, slots, selected) == TotalCap(js, slots', selected)
    decreases |slots|
  {
    hide OneSlot, Plus;
    if slots == [] {
      assert |multiset(slots')| == 0;
    } else {
      var i := FindLast(slots, slots');
      TotalCapIgnoresOrder(js, slots[..|slots| - 1], slots'[..i] + slots'[i + 1..], selected);
      TakeOut(js, slots', i, selected);
    }
  }

  /** Reordering a node's slots changes neither its pools nor its slot caps. */
  lemma CapsIgnoreOrder(js: Runtime, slots: seq<Slot>, slots': seq<Slot>, providerType: Option<string>,
                        model: Option<string>, matches: ModelMatch)
    requires multiset(slots) == multiset(slots')
    ensures ProviderPool(js, slots, providerType) == ProviderPool(js, slots', providerType)
    ensures SlotCap(js, slots, providerType, model, matches) == SlotCap(js, slots', providerType, model, matches)
  {
    var wanted := ProviderName(js, providerType);
    TotalCapIgnoresOrder(js, slots, slots', ProviderSlots(wanted));
    TotalCapIgnoresOrder(js, slots, slots', ModelSlots(wanted, WantedModel(model), matches));
  }

  // ----- Slot caps add up to the pool -----

  function SumOfSlotCaps(js: Runtime, slots: seq<Slot>, providerType: Option<string>, models: seq<Option<string>>,
                         matches: ModelMatch): (cap: Option<nat>) {
    if models == [] then None
    else Plus(SlotCap(js, slots, providerType, models[0], matches),
              SumOfSlotCaps(js, slots, providerType, models[1..], matches))
  }

  function MatchCount(slot: Slot, models: seq<Option<string>>, matches: ModelMatch): (n: nat) {
    if models == [] then 0
    else (if matches(WantedModel(models[0]), slot) then 1 else 0) + MatchCount(slot, models[1..], matches)
  }

  /** One more slot adds its cap once for every model that matches it; here, once or never. */
  lemma {:induction false} OneMoreSlot(js: Runtime, slots: seq<Slot>, slot: Slot, providerType: Option<string>,
                                       models: seq<Option<string>>, matches: ModelMatch)
    requires OfProvider(js, slot, ProviderName(js, providerType)) ==> MatchCount(slot, models, matches) <= 1
    ensures SumOfSlotCaps(js, slots + [slot], providerType, models, matches)
            == Plus(SumOfSlotCaps(js, slots, providerType, models, matches),
                    if OfProvider(js, slot, ProviderName(js, providerType)) && MatchCount(slot, models, matches) == 1
                    then DeclaredCap(js, slot) else None)
    decreases |models|
  {
    hide DeclaredCap, OfProvider, WantedModel, ProviderName;
    if models == [] {
    } else {
      assert (slots + [slot])[..|slots|] == slots;
      OneMoreSlot(js, slots, slot, providerType, models[1..], matches);
    }
  }

  lemma {:induction false} EmptyListHasNoCaps(js: Runtime, providerType: Option<string>, models: seq<Option<string>>,
                                              matches: ModelMatch)
    ensures SumOfSlotCaps(js, [], providerType, models, matches) == None
    decreases |models|
  {
    if models == [] {
    } else {
      EmptyListHasNoCaps(js, providerType, models[1..], matches);
    }
  }

  /** If the models between them match each of a provider's slots exactly once, their caps add up to the pool. */
  lemma {:induction false} SlotCapsAddUpToPool(js: Runtime, slots: seq<Slot>, providerType: Option<string>,
                                               models: seq<Option<string>>, matches: ModelMatch)
    requires forall slot :: slot in slots && OfProvider(js, slot, ProviderName(js, providerType)) ==>
             MatchCount(slot, models, matches) == 1
    ensures SumOfSlotCaps(js, slots, providerType, models, matches) == ProviderPool(js, slots, providerType)
    decreases |slots|
  {
    if slots == [] {
      EmptyListHasNoCaps(js, providerType, models, matches);
    } else {
      var n := |slots| - 1;
      assert slots == slots[..n] + [slots[n]];
      SlotCapsAddUpToPool(js, slots[..n], providerType, models, matches);
      OneMoreSlot(js, slots[..n], slots[n], providerType, models, matches);
    }
  }
}
