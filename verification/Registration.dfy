/** Proxy registration: look the id up, draw a slot number, write the registry. The three commands are separate,
    so any number of calls, even for one id, may interleave between them. */
module Registration {
  import opened Wrappers
  import Identity
  import Promotion
  import Text

  const LAST_SLOT: nat := 254

  /** How far one call has come. */
  datatype Stage =
    | Begun
    | Absent              // the id was not in the registry
    | Drew(slot: nat)     // INCR gave this slot, not written yet
    | Returned(slot: nat)
    | Failed

  datatype Call = Call(proxy: string, stage: Stage)

  /** The registry hash and slot counter, the calls made so far, and the history of which call drew which slot. */
  datatype State = State(registry: map<string, string>, counter: nat, calls: map<nat, Call>, drawnBy: map<nat, nat>)

  const EMPTY: State := State(map[], 0, map[], map[])

  /** One command of one call. The reply to a command may be lost after it took effect. */
  datatype Step =
    | Begin(call: nat, proxy: string)
    | Load(call: nat)
    | Draw(call: nat, replyLost: bool)
    | Write(call: nat, replyLost: bool)
    | Abort(call: nat)

  function At(s: State, c: nat): Option<Call> {
    if c in s.calls then Some(s.calls[c]) else None
  }

  function Move(s: State, c: nat, proxy: string, stage: Stage): State {
    s.(calls := s.calls[c := Call(proxy, stage)])
  }

  function Next(s: State, step: Step): State {
    match (step, At(s, step.call))
    case (Begin(c, proxy), None) => Move(s, c, proxy, Begun)
    case (Load(c), Some(Call(proxy, Begun))) =>
      if proxy !in s.registry then Move(s, c, proxy, Absent)
      else
        var slot := Text.ProxyNumFromSubnet(s.registry[proxy]);
        Move(s, c, proxy, if slot.Ok? then Returned(slot.value) else Failed)
    case (Draw(c, replyLost), Some(Call(proxy, Absent))) =>
      var slot := s.counter + 1;
      var drawn := s.(counter := slot, drawnBy := s.drawnBy[slot := c]);
      Move(drawn, c, proxy, if replyLost || slot > LAST_SLOT then Failed else Drew(slot))
    case (Write(c, replyLost), Some(Call(proxy, Drew(slot)))) =>
      var written := s.(registry := s.registry[proxy := Text.SubnetText(slot)]);
      Move(written, c, proxy, if replyLost then Failed else Returned(slot))
    case (Abort(c), Some(Call(proxy, stage))) =>
      if stage.Returned? then s else Move(s, c, proxy, Failed)
    case _ => s
  }

  function Run(s: State, steps: seq<Step>): State
    decreases |steps|
  {
    if steps == [] then s else Run(Next(s, steps[0]), steps[1..])
  }

  // ---- invariant ----

  /** This slot was drawn by a call for this id. */
  ghost predicate DrawnFor(s: State, slot: nat, proxy: string) {
    1 <= slot <= LAST_SLOT && slot in s.drawnBy && s.drawnBy[slot] in s.calls && s.calls[s.drawnBy[slot]].proxy == proxy
  }

  ghost predicate HoldsSlot(s: State, proxy: string, slot: nat) {
    && proxy in s.registry && s.registry[proxy] == Text.SubnetText(slot)
    && DrawnFor(s, slot, proxy)
    && (s.calls[s.drawnBy[slot]].stage == Returned(slot) || s.calls[s.drawnBy[slot]].stage == Failed)
  }

  ghost predicate CallOk(s: State, c: nat)
    requires c in s.calls
  {
    match s.calls[c].stage
    case Drew(slot) => 1 <= slot <= LAST_SLOT && slot in s.drawnBy && s.drawnBy[slot] == c
    case Returned(slot) => DrawnFor(s, slot, s.calls[c].proxy)
    case _ => true
  }

  ghost predicate Inv(s: State) {
    && (forall slot :: slot in s.drawnBy ==> 1 <= slot <= s.counter && s.drawnBy[slot] in s.calls)
    && (forall p :: p in s.registry ==> exists slot :: HoldsSlot(s, p, slot))
    && (forall c :: c in s.calls ==> CallOk(s, c))
  }

  lemma DrawnForKept(s: State, step: Step, slot: nat, proxy: string)
    requires Inv(s) && DrawnFor(s, slot, proxy)
    ensures DrawnFor(Next(s, step), slot, proxy)
    ensures Next(s, step).drawnBy[slot] == s.drawnBy[slot]
  {
  }

  /** A lookup that finds the id returns a number that was drawn for it. */
  lemma LoadedIsDrawn(s: State, proxy: string)
    requires Inv(s) && proxy in s.registry
    ensures Text.ProxyNumFromSubnet(s.registry[proxy]).Ok?
    ensures DrawnFor(s, Text.ProxyNumFromSubnet(s.registry[proxy]).value, proxy)
  {
    var slot :| HoldsSlot(s, proxy, slot);
    Text.SubnetRoundTrip(slot);
  }

  lemma OwnCallKept(s: State, step: Step)
    requires Inv(s) && step.call in Next(s, step).calls
    ensures CallOk(Next(s, step), step.call)
  {
    if step.call in s.calls {
      assert CallOk(s, step.call);
      var proxy := s.calls[step.call].proxy;
      if step.Load? && proxy in s.registry {
        LoadedIsDrawn(s, proxy);
      }
    }
  }

  lemma CallsKept(s: State, step: Step, c: nat)
    requires Inv(s) && c in Next(s, step).calls
    ensures CallOk(Next(s, step), c)
  {
    if c == step.call {
      OwnCallKept(s, step);
    } else {
      assert CallOk(s, c);
      if s.calls[c].stage.Returned? {
        DrawnForKept(s, step, s.calls[c].stage.slot, s.calls[c].proxy);
      }
    }
  }

  lemma HoldsSlotKept(s: State, step: Step, p: string, slot: nat)
    requires Inv(s) && HoldsSlot(s, p, slot) && p in Next(s, step).registry
    requires Next(s, step).registry[p] == s.registry[p]
    ensures HoldsSlot(Next(s, step), p, slot)
  {
    DrawnForKept(s, step, slot, p);
    var drawer := s.drawnBy[slot];
    assert s.calls[drawer].stage == Returned(slot) || s.calls[drawer].stage == Failed;
  }

  lemma HoldsSlotAfterWrite(s: State, c: nat, replyLost: bool)
    requires Inv(s) && c in s.calls && s.calls[c].stage.Drew?
    ensures HoldsSlot(Next(s, Write(c, replyLost)), s.calls[c].proxy, s.calls[c].stage.slot)
  {
    assert CallOk(s, c);
  }

  lemma RegistryKept(s: State, step: Step, p: string)
    requires Inv(s) && p in Next(s, step).registry
    ensures exists slot :: HoldsSlot(Next(s, step), p, slot)
  {
    if p in s.registry && Next(s, step).registry[p] == s.registry[p] {
      var slot :| HoldsSlot(s, p, slot);
      HoldsSlotKept(s, step, p, slot);
    } else {
      HoldsSlotAfterWrite(s, step.call, step.replyLost);
    }
  }

  lemma InvKept(s: State, step: Step)
    requires Inv(s)
    ensures Inv(Next(s, step))
  {
    var next := Next(s, step);
    forall p | p in next.registry ensures exists slot :: HoldsSlot(next, p, slot) {
      RegistryKept(s, step, p);
    }
    forall c | c in next.calls ensures CallOk(next, c) {
      CallsKept(s, step, c);
    }
  }

  lemma {:induction false} InvAlways(s: State, steps: seq<Step>)
    requires Inv(s)
    ensures Inv(Run(s, steps))
    decreases |steps|
  {
    if steps != [] {
      InvKept(s, steps[0]);
      InvAlways(Next(s, steps[0]), steps[1..]);
    }
  }

  // ---- distinct slots ----

  /** After any interleaving of calls every registered subnet parses to a slot in 1..254 and no two ids share one. */
  lemma SlotsAreDistinct(steps: seq<Step>, p: string, q: string)
    requires p in Run(EMPTY, steps).registry && q in Run(EMPTY, steps).registry
    ensures var registry := Run(EMPTY, steps).registry;
            var slot := Text.ProxyNumFromSubnet(registry[p]);
            && slot.Ok? && 1 <= slot.value <= LAST_SLOT
            && (p != q ==> Text.ProxyNumFromSubnet(registry[q]) != slot)
  {
    InvAlways(EMPTY, steps);
    var s := Run(EMPTY, steps);
    var slot :| HoldsSlot(s, p, slot);
    var other :| HoldsSlot(s, q, other);
    Text.SubnetRoundTrip(slot);
    Text.SubnetRoundTrip(other);
  }

  /** Calls for different ids never return the same number. */
  lemma ReturnedNumbersAreDistinct(steps: seq<Step>, c: nat, d: nat)
    requires var s := Run(EMPTY, steps);
             && c in s.calls && d in s.calls && s.calls[c].proxy != s.calls[d].proxy
             && s.calls[c].stage.Returned? && s.calls[d].stage.Returned?
    ensures var s := Run(EMPTY, steps); s.calls[c].stage.slot != s.calls[d].stage.slot
  {
    InvAlways(EMPTY, steps);
    var s := Run(EMPTY, steps);
    assert CallOk(s, c) && CallOk(s, d);
  }

  /** Which id every number drawn so far belongs to. */
  function Users(s: State): map<nat, string> {
    map slot: nat | slot in s.drawnBy && slot <= LAST_SLOT && s.drawnBy[slot] in s.calls :: s.calls[s.drawnBy[slot]].proxy
  }

  lemma {:induction false} DrawnForAlways(s: State, steps: seq<Step>, slot: nat, proxy: string)
    requires Inv(s) && DrawnFor(s, slot, proxy)
    ensures DrawnFor(Run(s, steps), slot, proxy)
    decreases |steps|
  {
    if steps != [] {
      DrawnForKept(s, steps[0], slot, proxy);
      InvKept(s, steps[0]);
      DrawnForAlways(Next(s, steps[0]), steps[1..], slot, proxy);
    }
  }

  /** Every number that a call has returned, and every number the registry has named, at any moment of a run belongs to one
      proxy id: together they are a numbering for the assignment script, even when ids run under numbers that the
      registry no longer holds. The address ranges of different ids are disjoint. */
  lemma NumbersInUseBelongToOneId(before: seq<Step>, after: seq<Step>)
    ensures var s := Run(EMPTY, before);
            var cfg := Identity.Config(Users(Run(s, after)));
            && (forall c :: c in s.calls && s.calls[c].stage.Returned? ==>
                  s.calls[c].stage.slot in cfg.user && cfg.user[s.calls[c].stage.slot] == s.calls[c].proxy)
            && Promotion.Agrees(cfg, s.registry)
            && forall a: nat, b: nat, n: nat, m: nat :: a in cfg.user && b in cfg.user && cfg.user[a] != cfg.user[b] ==>
                 Text.ScriptAddress(a, n) != Text.ScriptAddress(b, m)
  {
    InvAlways(EMPTY, before);
    var s := Run(EMPTY, before);
    var user := Users(Run(s, after));
    forall c | c in s.calls && s.calls[c].stage.Returned?
      ensures s.calls[c].stage.slot in user && user[s.calls[c].stage.slot] == s.calls[c].proxy
    {
      assert CallOk(s, c);
      DrawnForAlways(s, after, s.calls[c].stage.slot, s.calls[c].proxy);
    }
    forall p | p in s.registry
      ensures var num := Promotion.NumOf(s.registry, p); num.Ok? && num.value in user && user[num.value] == p
    {
      LoadedIsDrawn(s, p);
      DrawnForAlways(s, after, Text.ProxyNumFromSubnet(s.registry[p]).value, p);
    }
    forall a: nat, b: nat, n: nat, m: nat | a in user && b in user && user[a] != user[b]
      ensures Text.ScriptAddress(a, n) != Text.ScriptAddress(b, m)
    {
      Text.AddressTextEqualIff(a, n, b, m);
    }
  }

  // ---- keeping a slot ----

  /** A call for this id has seen it missing and can still write another subnet for it. */
  ghost predicate MayOverwrite(s: State, c: nat, proxy: string) {
    && c in s.calls && s.calls[c].proxy == proxy
    && (s.calls[c].stage.Drew? || (s.calls[c].stage.Absent? && s.counter < LAST_SLOT))
  }

  lemma NoNewOverwriters(s: State, step: Step, proxy: string)
    requires proxy in s.registry && forall c :: !MayOverwrite(s, c, proxy)
    ensures var next := Next(s, step);
            && proxy in next.registry && next.registry[proxy] == s.registry[proxy]
            && forall c :: !MayOverwrite(next, c, proxy)
  {
    var next := Next(s, step);
    assert !MayOverwrite(s, step.call, proxy);
    forall c ensures !MayOverwrite(next, c, proxy) {
      assert !MayOverwrite(s, c, proxy);
    }
  }

  lemma {:induction false} SlotKept(s: State, steps: seq<Step>, proxy: string)
    requires proxy in s.registry && forall c :: !MayOverwrite(s, c, proxy)
    ensures proxy in Run(s, steps).registry && Run(s, steps).registry[proxy] == s.registry[proxy]
    decreases |steps|
  {
    if steps != [] {
      NoNewOverwriters(s, steps[0], proxy);
      SlotKept(Next(s, steps[0]), steps[1..], proxy);
    }
  }

  lemma WriteOverwrites(s: State, c: nat, proxy: string)
    requires Inv(s) && proxy in s.registry && c in s.calls && s.calls[c].proxy == proxy && s.calls[c].stage.Drew?
    ensures var after := Next(s, Write(c, false)); proxy in after.registry && after.registry[proxy] != s.registry[proxy]
  {
    var slot :| HoldsSlot(s, proxy, slot);
    assert CallOk(s, c);
    Text.SubnetTextsDiffer(slot, s.calls[c].stage.slot);
  }

  lemma DrawnCanOverwrite(s: State, c: nat, proxy: string)
    requires Inv(s) && proxy in s.registry && c in s.calls && s.calls[c].proxy == proxy && s.calls[c].stage.Drew?
    ensures proxy in Run(s, [Write(c, false)]).registry && Run(s, [Write(c, false)]).registry[proxy] != s.registry[proxy]
  {
    var steps := [Write(c, false)];
    assert steps[1..] == [];
    assert Run(s, steps) == Next(s, steps[0]);
    WriteOverwrites(s, c, proxy);
  }

  lemma DrawGivesSlot(s: State, c: nat)
    requires c in s.calls && s.calls[c].stage.Absent? && s.counter < LAST_SLOT
    ensures Next(s, Draw(c, false)).registry == s.registry
    ensures Next(s, Draw(c, false)).calls == s.calls[c := Call(s.calls[c].proxy, Drew(s.counter + 1))]
  {
  }

  lemma RunDrawWrite(s: State, c: nat)
    ensures Run(s, [Draw(c, false)] + [Write(c, false)]) == Run(Next(s, Draw(c, false)), [Write(c, false)])
  {
    assert ([Draw(c, false)] + [Write(c, false)])[1..] == [Write(c, false)];
  }

  lemma AbsentCanOverwrite(s: State, c: nat, proxy: string)
    requires Inv(s) && proxy in s.registry && c in s.calls && s.calls[c].proxy == proxy && s.calls[c].stage.Absent? && s.counter < LAST_SLOT
    ensures var steps := [Draw(c, false)] + [Write(c, false)];
            proxy in Run(s, steps).registry && Run(s, steps).registry[proxy] != s.registry[proxy]
  {
    InvKept(s, Draw(c, false));
    DrawGivesSlot(s, c);
    DrawnCanOverwrite(Next(s, Draw(c, false)), c, proxy);
    RunDrawWrite(s, c);
  }

  lemma SlotCanBeLost(s: State, c: nat, proxy: string) returns (steps: seq<Step>)
    requires Inv(s) && proxy in s.registry && MayOverwrite(s, c, proxy)
    ensures proxy in Run(s, steps).registry && Run(s, steps).registry[proxy] != s.registry[proxy]
  {
    if s.calls[c].stage.Drew? {
      steps := [Write(c, false)];
      DrawnCanOverwrite(s, c, proxy);
    } else {
      steps := [Draw(c, false)] + [Write(c, false)];
      AbsentCanOverwrite(s, c, proxy);
    }
  }

  /** A registered id keeps its subnet in every continuation exactly when no other call for that id is past
      its lookup and still able to write. */
  lemma SlotIsStableIff(before: seq<Step>, proxy: string)
    requires proxy in Run(EMPTY, before).registry
    ensures var s := Run(EMPTY, before);
            (forall steps :: proxy in Run(s, steps).registry && Run(s, steps).registry[proxy] == s.registry[proxy])
            <==> (forall c :: !MayOverwrite(s, c, proxy))
  {
    var s := Run(EMPTY, before);
    InvAlways(EMPTY, before);
    if c :| MayOverwrite(s, c, proxy) {
      var steps := SlotCanBeLost(s, c, proxy);
    } else {
      forall steps ensures proxy in Run(s, steps).registry && Run(s, steps).registry[proxy] == s.registry[proxy] {
        SlotKept(s, steps, proxy);
      }
    }
  }

  /** Two calls racing for one new id may return different numbers, one of which the registry does not hold; both then belong to the id. */
  lemma RaceForOneId(proxy: string)
    ensures var s := Run(EMPTY, [Begin(0, proxy), Begin(1, proxy), Load(0), Load(1)] + [Draw(0, false), Draw(1, false), Write(0, false), Write(1, false)]);
            && s.calls == map[0 := Call(proxy, Returned(1)), 1 := Call(proxy, Returned(2))]
            && s.registry == map[proxy := Text.SubnetText(2)]
            && Users(s) == map[1 := proxy, 2 := proxy]
  {
    var first := [Begin(0, proxy), Begin(1, proxy), Load(0), Load(1)];
    var second := [Draw(0, false), Draw(1, false), Write(0, false), Write(1, false)];
    RunFour(EMPTY, first + second);
    assert (first + second)[4..] == second;
    BothLoad(proxy);
    BothWrite(proxy);
    RunFour(BothAbsent(proxy), second);
    assert second[4..] == [];
  }

  function BothAbsent(proxy: string): State {
    EMPTY.(calls := map[0 := Call(proxy, Absent), 1 := Call(proxy, Absent)])
  }

  lemma BothLoad(proxy: string)
    ensures Next(Next(Next(Next(EMPTY, Begin(0, proxy)), Begin(1, proxy)), Load(0)), Load(1)) == BothAbsent(proxy)
  {
  }

  lemma BothDraw(proxy: string)
    ensures Next(Next(BothAbsent(proxy), Draw(0, false)), Draw(1, false))
         == State(map[], 2, map[0 := Call(proxy, Drew(1)), 1 := Call(proxy, Drew(2))], map[1 := 0, 2 := 1])
  {
  }

  lemma BothWrite(proxy: string)
    ensures var s := Next(Next(Next(Next(BothAbsent(proxy), Draw(0, false)), Draw(1, false)), Write(0, false)), Write(1, false));
            s == State(map[proxy := Text.SubnetText(2)], 2,
                       map[0 := Call(proxy, Returned(1)), 1 := Call(proxy, Returned(2))], map[1 := 0, 2 := 1])
  {
    BothDraw(proxy);
  }

  lemma RunHead(s: State, steps: seq<Step>, k: nat)
    requires k < |steps|
    ensures Run(s, steps[k..]) == Run(Next(s, steps[k]), steps[k + 1..])
  {
    assert steps[k..][0] == steps[k] && steps[k..][1..] == steps[k + 1..];
  }

  lemma RunFour(s: State, steps: seq<Step>)
    requires |steps| >= 4
    ensures Run(s, steps) == Run(Next(Next(Next(Next(s, steps[0]), steps[1]), steps[2]), steps[3]), steps[4..])
  {
    var s1 := Next(s, steps[0]);
    var s2 := Next(s1, steps[1]);
    var s3 := Next(s2, steps[2]);
    assert steps[0..] == steps;
    RunHead(s, steps, 0);
    RunHead(s1, steps, 1);
    RunHead(s2, steps, 2);
    RunHead(s3, steps, 3);
  }

  // ---- what a call returns ----

  lemma RunTwo(s: State, a: Step, b: Step)
    ensures Run(s, [a, b]) == Next(Next(s, a), b)
  {
    assert [a, b][1..] == [b] && [b][1..] == [];
    assert Run(Next(s, a), [b]) == Run(Next(Next(s, a), b), []);
  }

  /** A registered proxy gets its number back: whatever calls came before, a call that looks the id up when it is registered
      returns the number of the subnet registered for it, and changes nothing. */
  lemma RegisteredNumberIsReturned(steps: seq<Step>, c: nat)
    requires var s := Run(EMPTY, steps); c in s.calls && s.calls[c].stage == Begun && s.calls[c].proxy in s.registry
    ensures var s := Run(EMPTY, steps);
            var num := Text.ProxyNumFromSubnet(s.registry[s.calls[c].proxy]);
            && num.Ok? && 1 <= num.value <= 254
            && Next(s, Load(c)) == s.(calls := s.calls[c := Call(s.calls[c].proxy, Returned(num.value))])
  {
    var s := Run(EMPTY, steps);
    InvAlways(EMPTY, steps);
    LoadedIsDrawn(s, s.calls[c].proxy);
  }

  lemma UndisturbedLookup(s: State, c: nat, proxy: string)
    requires Inv(s) && proxy in s.registry && c !in s.calls
    ensures var num := Text.ProxyNumFromSubnet(s.registry[proxy]);
            && num.Ok?
            && Run(s, [Begin(c, proxy), Load(c)]) == s.(calls := s.calls[c := Call(proxy, Returned(num.value))])
  {
    LoadedIsDrawn(s, proxy);
    RunTwo(s, Begin(c, proxy), Load(c));
  }

  /** So does every later call that runs undisturbed. */
  lemma LaterCallReturnsTheNumber(steps: seq<Step>, c: nat, proxy: string)
    requires proxy in Run(EMPTY, steps).registry && c !in Run(EMPTY, steps).calls
    ensures var s := Run(EMPTY, steps);
            var num := Text.ProxyNumFromSubnet(s.registry[proxy]);
            && num.Ok?
            && Run(s, [Begin(c, proxy), Load(c)]) == s.(calls := s.calls[c := Call(proxy, Returned(num.value))])
  {
    InvAlways(EMPTY, steps);
    UndisturbedLookup(Run(EMPTY, steps), c, proxy);
  }

  /** A new proxy that runs undisturbed is given the next number, up to 254, and its subnet is registered; after that it fails. */
  lemma NewProxyGetsNextNumber(s: State, c: nat, proxy: string)
    requires proxy !in s.registry && c !in s.calls
    ensures var after := Run(s, [Begin(c, proxy), Load(c), Draw(c, false), Write(c, false)]);
            && c in after.calls && after.counter == s.counter + 1
            && if s.counter < 254
               then after.calls[c].stage == Returned(s.counter + 1) && after.registry == s.registry[proxy := Text.SubnetText(s.counter + 1)]
               else after.calls[c].stage == Failed && after.registry == s.registry
  {
    var steps := [Begin(c, proxy), Load(c), Draw(c, false), Write(c, false)];
    RunFour(s, steps);
    assert steps[4..] == [];
  }

  // ---- one call running alone ----

  /** The registry and counter as one call uses them. */
  class Store {
    var registry: map<string, string>
    var counter: nat

    constructor ()
      ensures registry == map[] && counter == 0
    {
      registry, counter := map[], 0;
    }

    /** The three commands of one call with nobody in between: exactly its steps in the interleaved system. */
    method Register(proxy: string, ghost c: nat, ghost s: State) returns (info: Result<(string, nat)>)
      requires s.registry == registry && s.counter == counter && c !in s.calls
      modifies this
      ensures proxy in old(registry) ==>
                && registry == old(registry) && counter == old(counter)
                && match Text.ProxyNumFromSubnet(old(registry)[proxy])
                   case Ok(n) => info == Ok((old(registry)[proxy], n))
                   case Err(_) => info.Err?
      ensures proxy !in old(registry) ==>
                && counter == old(counter) + 1
                && if old(counter) < 254
                   then info == Ok((Text.SubnetText(counter), counter)) && registry == old(registry)[proxy := Text.SubnetText(counter)]
                   else info.Err? && registry == old(registry)
      ensures var after := Run(s, [Begin(c, proxy), Load(c), Draw(c, false), Write(c, false)]);
              && registry == after.registry && counter == after.counter && c in after.calls
              && (match info
                  case Ok((subnet, num)) => after.calls[c].stage == Returned(num) && proxy in registry && registry[proxy] == subnet
                  case Err(_) => after.calls[c].stage == Failed)
    {
      ghost var steps := [Begin(c, proxy), Load(c), Draw(c, false), Write(c, false)];
      ghost var after := Next(Next(Next(Next(s, steps[0]), steps[1]), steps[2]), steps[3]);
      assert Run(s, steps) == after by {
        RunFour(s, steps);
        assert steps[4..] == [];
      }
      if proxy in registry {
        var num := Text.ProxyNumFromSubnet(registry[proxy]);
        return if num.Ok? then Ok((registry[proxy], num.value)) else Err(num.message);
      }
      counter := counter + 1;
      var slot := counter;
      if slot > LAST_SLOT {
        return Err("proxy subnet space exhausted");
      }
      registry := registry[proxy := Text.SubnetText(slot)];
      info := Ok((Text.SubnetText(slot), slot));
    }
  }
}
