/** The init-hook table: sorted once at boot, then run stage by stage. */
module InitHooks {
  import opened Bits
  import opened Bytes
  import opened Sequences
  import opened Blocks
  import opened Order
  import opened QuickSort

  /** Size of `init_stage_hook_t`: two 32-bit fields and three pointers, without padding. */
  const HOOK_SIZE: nat := 32

  datatype Hook = Hook(stage: nat, priority: nat, hook: nat, args: nat, name: nat)

  /** One call of a hook, with the value the global `stage` had while it ran. */
  datatype Call = Call(hook: Hook, during: nat)

  /** The fields of an entry. */
  function HookOf(e: Element): Hook {
    var m := RamOf(e);
    Hook(Word32(m, 0), Word32(m, 4), Word64(m, 8), Word64(m, 16), Word64(m, 24))
  }

  function HooksOf(v: seq<Element>): (t: seq<Hook>)
    requires Sized(v, HOOK_SIZE)
    ensures |t| == |v|
    ensures forall i :: 0 <= i < |t| ==> t[i] == HookOf(v[i])
  {
    seq(|v|, i requires 0 <= i < |v| => HookOf(v[i]))
  }

  /* ---- The layout of the table ---- */

  /** The values fit the fields of `init_stage_hook_t`. */
  predicate IsHook(h: Hook) {
    && h.stage < 0x1_0000_0000 && h.priority < 0x1_0000_0000
    && h.hook < 0x1_0000_0000_0000_0000 && h.args < 0x1_0000_0000_0000_0000 && h.name < 0x1_0000_0000_0000_0000
  }

  /** An entry as it lies in memory: its fields in the order of their declaration. */
  function HookBytes(h: Hook): (r: seq<Byte>)
    ensures |r| == 32
  {
    Le(h.stage, 4) + (Le(h.priority, 4) + (Le(h.hook, 8) + (Le(h.args, 8) + Le(h.name, 8))))
  }

  lemma FieldsRead(m: Ram, h: Hook)
    requires Holds(m, 0, HookBytes(h)) && IsHook(h)
    ensures Hook(Word32(m, 0), Word32(m, 4), Word64(m, 8), Word64(m, 16), Word64(m, 24)) == h
  {
    FiveParts(m, Le(h.stage, 4), Le(h.priority, 4), Le(h.hook, 8), Le(h.args, 8), Le(h.name, 8));
    WordOfLe(m, 0, h.stage);
    WordOfLe(m, 4, h.priority);
    WordOfLe(m, 8, h.hook);
    WordOfLe(m, 16, h.args);
    WordOfLe(m, 24, h.name);
  }

  lemma FieldsWritten(m: Ram)
    ensures Holds(m, 0, HookBytes(Hook(Word32(m, 0), Word32(m, 4), Word64(m, 8), Word64(m, 16), Word64(m, 24))))
  {
    var h := Hook(Word32(m, 0), Word32(m, 4), Word64(m, 8), Word64(m, 16), Word64(m, 24));
    LeOfLittle(m, 0, 4);
    LeOfLittle(m, 4, 4);
    LeOfLittle(m, 8, 8);
    LeOfLittle(m, 16, 8);
    LeOfLittle(m, 24, 8);
    FiveParts(m, Le(h.stage, 4), Le(h.priority, 4), Le(h.hook, 8), Le(h.args, 8), Le(h.name, 8));
  }

  lemma FiveParts(m: Ram, a: seq<Byte>, b: seq<Byte>, c: seq<Byte>, d: seq<Byte>, e: seq<Byte>)
    requires |a| == 4 && |b| == 4 && |c| == 8 && |d| == 8
    ensures Holds(m, 0, a + (b + (c + (d + e)))) <==>
            Holds(m, 0, a) && Holds(m, 4, b) && Holds(m, 8, c) && Holds(m, 16, d) && Holds(m, 24, e)
  {
    HoldsBoth(m, 16, d, e);
    HoldsBoth(m, 8, c, d + e);
    HoldsBoth(m, 4, b, c + (d + e));
    HoldsBoth(m, 0, a, b + (c + (d + e)));
  }

  lemma RamIsBytes(e: Element, s: seq<Byte>)
    requires |e| == |s|
    ensures Holds(RamOf(e), 0, s) <==> e == s
  {
    assert Open(s, 0);
    if Holds(RamOf(e), 0, s) {
      forall k | 0 <= k < |s| ensures e[k] == s[k] {
        assert RamOf(e)(0 + k) == s[k];
      }
    }
  }

  /** The decoded fields of an entry are those whose layout its bytes are. */
  lemma HookOfIff(e: Element, h: Hook)
    requires |e| == 32
    ensures HookOf(e) == h <==> IsHook(h) && e == HookBytes(h)
  {
    RamIsBytes(e, HookBytes(h));
    FieldsAre(RamOf(e), h);
  }

  lemma FieldsAre(m: Ram, h: Hook)
    ensures Hook(Word32(m, 0), Word32(m, 4), Word64(m, 8), Word64(m, 16), Word64(m, 24)) == h
       <==> IsHook(h) && Holds(m, 0, HookBytes(h))
  {
    if IsHook(h) && Holds(m, 0, HookBytes(h)) {
      FieldsRead(m, h);
    }
    if Hook(Word32(m, 0), Word32(m, 4), Word64(m, 8), Word64(m, 16), Word64(m, 24)) == h {
      FieldsWritten(m);
    }
  }

  /** Entries with these values lie one after the other in memory. */
  ghost predicate LaidOut(m: seq<Byte>, start: nat, hs: seq<Hook>) {
    forall i :: 0 <= i < |hs| ==>
      IsHook(hs[i]) && start + i * 32 + 32 <= |m| && m[start + i * 32..start + i * 32 + 32] == HookBytes(hs[i])
  }

  /** Any bytes are the layout of exactly one table: the decoded one. */
  lemma DecodesIff(m: seq<Byte>, start: nat, n: nat, hs: seq<Hook>)
    requires At(start, HOOK_SIZE, n) <= |m| && |hs| == n
    ensures LaidOut(m, start, hs) <==> HooksOf(View(m, start, n, HOOK_SIZE)) == hs
  {
    var v := View(m, start, n, HOOK_SIZE);
    forall i | 0 <= i < n
      ensures start + i * 32 + 32 <= |m| && v[i] == m[start + i * 32..start + i * 32 + 32]
      ensures HookOf(v[i]) == hs[i] <==> IsHook(hs[i]) && v[i] == HookBytes(hs[i])
    {
      ElementIsSlice(m, start, n, HOOK_SIZE, i);
      HookOfIff(v[i], hs[i]);
    }
    EachDecodes(v, hs);
  }

  lemma AnyDecodes(m: seq<Byte>, start: nat, n: nat)
    requires At(start, HOOK_SIZE, n) <= |m|
    ensures forall hs: seq<Hook> :: |hs| == n ==>
              (LaidOut(m, start, hs) <==> HooksOf(View(m, start, n, HOOK_SIZE)) == hs)
  {
    forall hs: seq<Hook> | |hs| == n
      ensures LaidOut(m, start, hs) <==> HooksOf(View(m, start, n, HOOK_SIZE)) == hs
    {
      DecodesIff(m, start, n, hs);
    }
  }

  lemma EachDecodes(v: seq<Element>, hs: seq<Hook>)
    requires Sized(v, HOOK_SIZE) && |hs| == |v|
    ensures HooksOf(v) == hs <==> forall i :: 0 <= i < |v| ==> HookOf(v[i]) == hs[i]
  {
  }

  /** The order of two hooks: by stage, then by priority, the smaller number first. */
  predicate NotAfter(a: Hook, b: Hook) {
    a.stage < b.stage || (a.stage == b.stage && a.priority <= b.priority)
  }

  ghost predicate InOrder(t: seq<Hook>) {
    forall i, j :: 0 <= i < j < |t| ==> NotAfter(t[i], t[j])
  }

  /** `hook_cmp`, on two table entries. */
  function HookCmp(x: Element, y: Element): int {
    if |x| != HOOK_SIZE || |y| != HOOK_SIZE then 0
    else
      var a, b := HookOf(x), HookOf(y);
      if a.stage == b.stage then
        if a.priority == b.priority then 0 else if a.priority < b.priority then -1 else 1
      else if a.stage < b.stage then -1 else 1
  }

  lemma HookCmpIsOrder(x: Element, y: Element)
    requires |x| == HOOK_SIZE && |y| == HOOK_SIZE
    ensures HookCmp(x, y) <= 0 <==> NotAfter(HookOf(x), HookOf(y))
  {
  }

  lemma HookCmpIsPreorder()
    ensures TotalPreorder(HookCmp, HOOK_SIZE)
  {
    forall x: Element, y: Element | |x| == HOOK_SIZE && |y| == HOOK_SIZE
      ensures Dual(HookCmp, x, y)
    {
    }
    forall x: Element, y: Element, z: Element | |x| == HOOK_SIZE && |y| == HOOK_SIZE && |z| == HOOK_SIZE
      ensures Transitive(HookCmp, x, y, z)
    {
      HookCmpIsOrder(x, y);
      HookCmpIsOrder(y, z);
      HookCmpIsOrder(x, z);
    }
  }

  lemma {:induction false} HooksOfPermutes(v: seq<Element>, w: seq<Element>)
    requires Sized(v, HOOK_SIZE) && Sized(w, HOOK_SIZE) && multiset(v) == multiset(w)
    ensures multiset(HooksOf(v)) == multiset(HooksOf(w))
    decreases |v|
  {
    SameMembers(v, w);
    if v == [] {
      assert w == [];
    } else {
      var k :| 0 <= k < |w| && w[k] == v[0];
      MultisetWithout(v, 0);
      MultisetWithout(w, k);
      HooksOfWithout(v, 0);
      HooksOfWithout(w, k);
      HooksOfPermutes(Without(v, 0), Without(w, k));
      MultisetWithout(HooksOf(v), 0);
      MultisetWithout(HooksOf(w), k);
    }
  }

  lemma HooksOfWithout(v: seq<Element>, k: nat)
    requires Sized(v, HOOK_SIZE) && k < |v|
    ensures Sized(Without(v, k), HOOK_SIZE)
    ensures HooksOf(Without(v, k)) == Without(HooksOf(v), k)
  {
  }

  lemma MultisetWithout<T>(s: seq<T>, k: nat)
    requires k < |s|
    ensures multiset(s) == multiset(Without(s, k)) + multiset{s[k]}
    ensures multiset(Without(s, k)) == multiset(s) - multiset{s[k]}
  {
    assert s == s[..k] + [s[k]] + s[k + 1..];
  }

  /** Where a call for stage `upto` that starts at hook `cur` stops. */
  function Reach(t: seq<Hook>, cur: nat, upto: nat): (r: nat)
    requires cur <= |t|
    ensures cur <= r <= |t|
    ensures forall i :: cur <= i < r ==> t[i].stage <= upto
    ensures r < |t| ==> t[r].stage > upto
    decreases |t| - cur
  {
    if cur < |t| && t[cur].stage <= upto then Reach(t, cur + 1, upto) else cur
  }

  /** What running one hook records: while it runs, the 32-bit `stage` is one below the hook's. */
  function CallOf(h: Hook): Call {
    Call(h, (h.stage + TWO_32 - 1) % TWO_32)
  }

  function CallsOf(t: seq<Hook>): (c: seq<Call>)
    ensures |c| == |t|
  {
    seq(|t|, i requires 0 <= i < |t| => CallOf(t[i]))
  }

  /** The kernel's hook section and the two globals of the runner. */
  class InitSystem {
    const mem: array<Byte>
    /** `__init_hooks_start`, and the number of entries up to `__init_hooks_end`. */
    const start: nat
    const numHooks: nat
    /** `init_hook_cur`, as an index. */
    var cur: nat
    var stage: nat
    /** The calls made so far, in order. */
    var ran: seq<Call>

    ghost predicate Valid()
      reads this
    {
      At(start, HOOK_SIZE, numHooks) <= mem.Length && cur <= numHooks
    }

    ghost function Table(): (t: seq<Hook>)
      requires At(start, HOOK_SIZE, numHooks) <= mem.Length
      reads mem
      ensures |t| == numHooks
    {
      HooksOf(View(mem[..], start, numHooks, HOOK_SIZE))
    }

    constructor (mem: array<Byte>, start: nat, numHooks: nat)
      requires At(start, HOOK_SIZE, numHooks) <= mem.Length
      ensures Valid() && this.mem == mem && this.start == start && this.numHooks == numHooks
      ensures cur == 0 && stage == 0 && ran == []
    {
      this.mem, this.start, this.numHooks := mem, start, numHooks;
      cur, stage, ran := 0, 0, [];
    }

    /** `init_hooks_init`: puts the registered hooks in order, losing and inventing none. */
    method InitHooksInit()
      requires Valid()
      modifies mem
      ensures Valid()
      ensures InOrder(Table())
      ensures multiset(Table()) == multiset(old(Table()))
      ensures LaidOut(mem[..], start, Table()) && SameOutside(old(mem[..]), mem[..], start, numHooks, HOOK_SIZE)
      ensures forall hs: seq<Hook> :: |hs| == numHooks && old(LaidOut(mem[..], start, hs)) ==>
                multiset(Table()) == multiset(hs)
    {
      AnyDecodes(mem[..], start, numHooks);
      ghost var v := View(mem[..], start, numHooks, HOOK_SIZE);
      HookCmpIsPreorder();
      QSort(mem, start, numHooks, HOOK_SIZE, HookCmp);
      ghost var w := View(mem[..], start, numHooks, HOOK_SIZE);
      HooksOfPermutes(v, w);
      forall i, j | 0 <= i < j < numHooks ensures NotAfter(Table()[i], Table()[j]) {
        HookCmpIsOrder(w[i], w[j]);
      }
      AnyDecodes(mem[..], start, numHooks);
    }

    /** The table is this; shut. */
    ghost predicate TableIs(t: seq<Hook>)
      requires At(start, HOOK_SIZE, numHooks) <= mem.Length
      reads mem
    {
      forall k: nat :: Open(t, k) ==> t == Table()
    }

    lemma OpenTable(t: seq<Hook>)
      requires At(start, HOOK_SIZE, numHooks) <= mem.Length
      ensures TableIs(t) <==> t == Table()
    {
      assert Open(t, 0);
    }

    /** `kernel_init_upto`, with hooks that do not call it again. */
    method KernelInitUpto(upto: nat)
      requires Valid()
      modifies this
      ensures Valid()
      ensures cur == Reach(Table(), old(cur), upto)
      ensures ran == old(ran) + CallsOf(Table()[old(cur)..cur])
      ensures HooksRan(old(ran), ran, Table(), old(cur), cur)
      ensures stage == upto
    {
      ghost var t := Table();
      OpenTable(t);
      RunUpto(upto, t);
      OpenTable(t);
      CallsAre(old(ran), t, old(cur), cur);
    }

    method RunUpto(upto: nat, ghost t: seq<Hook>)
      requires Valid() && |t| == numHooks && TableIs(t)
      modifies this
      ensures Valid() && TableIs(t)
      ensures cur == Reach(t, old(cur), upto)
      ensures ran == old(ran) + CallsOf(t[old(cur)..cur])
      ensures stage == upto
    {
      var curHook := cur;
      ghost var from, before := cur, ran;
      assert ran == before + CallsOf(t[from..cur]);
      while curHook < numHooks
        invariant Valid() && TableIs(t) && cur == curHook && from <= cur
        invariant Reach(t, cur, upto) == Reach(t, from, upto)
        invariant ran == before + CallsOf(t[from..cur])
        decreases numHooks - curHook
      {
        var h := HookAt(curHook, t);
        if h.stage > upto {
          break;
        }
        stage := CallOf(h).during;
        ran := ran + [CallOf(h)];
        CallsOfNext(t, from, curHook, before);
        curHook := curHook + 1;
        cur := curHook;
      }
      stage := upto;
    }

    method HookAt(i: nat, ghost t: seq<Hook>) returns (h: Hook)
      requires Valid() && i < numHooks == |t| && TableIs(t)
      ensures h == t[i]
    {
      OpenTable(t);
      ViewAt(mem[..], start, numHooks, HOOK_SIZE, i);
      h := HookOf(Read(mem, start, HOOK_SIZE, i));
    }

    /** Boot: sort the table, then ask for stages in any sequence. */
    method Boot(uptos: seq<nat>)
      requires Valid() && cur == 0 && ran == []
      modifies this, mem
      ensures Valid() && InOrder(Table())
      ensures multiset(Table()) == multiset(old(Table()))
      ensures ran == CallsOf(Trace(Table(), 0, uptos))
      ensures LaidOut(mem[..], start, Table()) && SameOutside(old(mem[..]), mem[..], start, numHooks, HOOK_SIZE)
      ensures forall hs: seq<Hook> :: |hs| == numHooks && old(LaidOut(mem[..], start, hs)) ==>
                multiset(Table()) == multiset(hs)
      ensures HooksRan([], ran, Table(), 0, |ran|) && StandsAt(Table(), |ran|, Largest(uptos))
    {
      InitHooksInit();
      RunStages(uptos);
    }

    /** Any sequence of calls, on a table in order. */
    method RunStages(uptos: seq<nat>)
      requires Valid() && cur == 0 && ran == [] && InOrder(Table())
      requires forall i :: 0 <= i < numHooks ==> Table()[i].stage < TWO_32
      modifies this
      ensures Valid() && ran == CallsOf(Trace(Table(), 0, uptos))
      ensures HooksRan([], ran, Table(), 0, |ran|) && StandsAt(Table(), |ran|, Largest(uptos))
    {
      ghost var t := Table();
      OpenTable(t);
      RunEach(uptos, t);
      OpenTable(t);
      TraceRan(t, uptos);
    }

    method RunEach(uptos: seq<nat>, ghost t: seq<Hook>)
      requires Valid() && cur == 0 && ran == [] && |t| == numHooks && TableIs(t)
      modifies this
      ensures Valid() && TableIs(t) && ran == CallsOf(Trace(t, 0, uptos))
    {
      for k := 0 to |uptos|
        invariant Valid() && TableIs(t)
        invariant cur == RunAll(t, 0, uptos[..k])
        invariant ran == CallsOf(Trace(t, 0, uptos[..k]))
      {
        ghost var was := cur;
        RunUpto(uptos[k], t);
        NextUpto(t, uptos, k, was, cur);
      }
      assert uptos[..|uptos|] == uptos;
    }
  }

  /** The hooks of the table from one index up to another were called, once each, in order, and while each ran
      the 32-bit `stage` was one below its own. */
  ghost predicate HooksRan(was: seq<Call>, now: seq<Call>, t: seq<Hook>, from: nat, to: nat) {
    && from <= to <= |t| && |now| == |was| + (to - from) && was <= now
    && forall k :: |was| <= k < |now| ==> now[k].hook == t[from + (k - |was|)] && IsOneBelow(now[k])
  }

  predicate IsOneBelow(c: Call) {
    if c.hook.stage == 0 then c.during == 0xffff_ffff else c.during + 1 == c.hook.stage
  }

  lemma CallsAre(was: seq<Call>, t: seq<Hook>, from: nat, to: nat)
    requires from <= to <= |t| && forall i :: from <= i < to ==> t[i].stage < TWO_32
    ensures HooksRan(was, was + CallsOf(t[from..to]), t, from, to)
  {
    var now := was + CallsOf(t[from..to]);
    forall k | |was| <= k < |now| ensures now[k].hook == t[from + (k - |was|)] && IsOneBelow(now[k]) {
      assert now[k] == CallOf(t[from..to][k - |was|]);
    }
  }

  lemma TraceRan(t: seq<Hook>, uptos: seq<nat>)
    requires InOrder(t) && forall i :: 0 <= i < |t| ==> t[i].stage < TWO_32
    ensures var ran := CallsOf(Trace(t, 0, uptos));
            |ran| <= |t| && HooksRan([], ran, t, 0, |ran|) && StandsAt(t, |ran|, Largest(uptos))
  {
    RunAllStands(t, 0, -1, uptos);
    CallsAre([], t, 0, RunAll(t, 0, uptos));
    assert [] + CallsOf(Trace(t, 0, uptos)) == CallsOf(Trace(t, 0, uptos));
  }

  lemma NextUpto(t: seq<Hook>, uptos: seq<nat>, k: nat, was: nat, now: nat)
    requires k < |uptos| && was == RunAll(t, 0, uptos[..k]) && now == Reach(t, was, uptos[k])
    ensures now == RunAll(t, 0, uptos[..k + 1])
    ensures CallsOf(Trace(t, 0, uptos[..k])) + CallsOf(t[was..now]) == CallsOf(Trace(t, 0, uptos[..k + 1]))
  {
    assert uptos[..k + 1] == uptos[..k] + [uptos[k]];
    RunAppend(t, 0, uptos[..k], uptos[k]);
    CallsOfConcat(Trace(t, 0, uptos[..k]), t[was..now]);
  }

  lemma CallsOfNext(t: seq<Hook>, from: nat, i: nat, before: seq<Call>)
    requires from <= i < |t|
    ensures before + CallsOf(t[from..i]) + [CallOf(t[i])] == before + CallsOf(t[from..i + 1])
  {
    assert CallsOf(t[from..i + 1]) == CallsOf(t[from..i]) + [CallOf(t[i])];
  }

  lemma CallsOfConcat(a: seq<Hook>, b: seq<Hook>)
    ensures CallsOf(a + b) == CallsOf(a) + CallsOf(b)
  {
  }

  /** Where the runner stands after a sequence of calls. */
  function RunAll(t: seq<Hook>, cur: nat, uptos: seq<nat>): (r: nat)
    requires cur <= |t|
    ensures cur <= r <= |t|
    decreases |uptos|
  {
    if uptos == [] then cur else RunAll(t, Reach(t, cur, uptos[0]), uptos[1..])
  }

  /** The hooks a sequence of calls runs, in order. */
  function Trace(t: seq<Hook>, cur: nat, uptos: seq<nat>): seq<Hook>
    requires cur <= |t|
    decreases |uptos|
  {
    if uptos == [] then []
    else
      var next := Reach(t, cur, uptos[0]);
      t[cur..next] + Trace(t, next, uptos[1..])
  }

  lemma {:induction false} RunAppend(t: seq<Hook>, cur: nat, uptos: seq<nat>, u: nat)
    requires cur <= |t|
    ensures var r := RunAll(t, cur, uptos);
            && RunAll(t, cur, uptos + [u]) == Reach(t, r, u)
            && Trace(t, cur, uptos + [u]) == Trace(t, cur, uptos) + t[r..Reach(t, r, u)]
    decreases |uptos|
  {
    if uptos == [] {
      assert uptos + [u] == [u] && [u][1..] == [];
      assert Trace(t, cur, [u]) == t[cur..Reach(t, cur, u)] + [];
    } else {
      var next := Reach(t, cur, uptos[0]);
      var r := RunAll(t, next, uptos[1..]);
      RunAppend(t, next, uptos[1..], u);
      assert (uptos + [u])[1..] == uptos[1..] + [u] && (uptos + [u])[0] == uptos[0];
      Joined(t[cur..next], Trace(t, next, uptos[1..]), t[r..Reach(t, r, u)]);
    }
  }

  /** The largest stage asked for; nothing asked for is below every stage. */
  function Largest(uptos: seq<nat>): (m: int)
    ensures uptos == [] ==> m == -1
    ensures forall u :: u in uptos ==> u <= m
    ensures uptos != [] ==> m in uptos
  {
    if uptos == [] then -1
    else
      var m := Largest(uptos[1..]);
      assert forall u :: u in uptos ==> u == uptos[0] || u in uptos[1..];
      if uptos[0] > m then uptos[0] else m
  }

  /** The runner stands between the hooks of stage at most `m` and those above. */
  ghost predicate StandsAt(t: seq<Hook>, cur: nat, m: int) {
    && cur <= |t|
    && (forall i :: 0 <= i < cur ==> t[i].stage <= m)
    && (forall i :: cur <= i < |t| ==> t[i].stage > m)
  }

  lemma ReachStands(t: seq<Hook>, cur: nat, m: int, upto: nat)
    requires InOrder(t) && StandsAt(t, cur, m)
    ensures StandsAt(t, Reach(t, cur, upto), if upto > m then upto else m)
  {
    var r := Reach(t, cur, upto);
    if r < |t| {
      assert forall i :: r < i < |t| ==> NotAfter(t[r], t[i]);
    }
    if upto <= m && cur < |t| {
      assert t[cur].stage > m;
      assert r == cur;
    }
  }

  lemma {:induction false} TraceIsSlice(t: seq<Hook>, cur: nat, uptos: seq<nat>)
    requires cur <= |t|
    ensures Trace(t, cur, uptos) == t[cur..RunAll(t, cur, uptos)]
    decreases |uptos|
  {
    if uptos != [] {
      var next := Reach(t, cur, uptos[0]);
      TraceIsSlice(t, next, uptos[1..]);
      assert t[cur..next] + t[next..RunAll(t, next, uptos[1..])] == t[cur..RunAll(t, cur, uptos)];
    }
  }

  lemma {:induction false} RunAllStands(t: seq<Hook>, cur: nat, m: int, uptos: seq<nat>)
    requires InOrder(t) && StandsAt(t, cur, m)
    ensures StandsAt(t, RunAll(t, cur, uptos), if Largest(uptos) > m then Largest(uptos) else m)
    ensures Trace(t, cur, uptos) == t[cur..RunAll(t, cur, uptos)]
    decreases |uptos|
  {
    TraceIsSlice(t, cur, uptos);
    if uptos != [] {
      ReachStands(t, cur, m, uptos[0]);
      RunAllStands(t, Reach(t, cur, uptos[0]), if uptos[0] > m then uptos[0] else m, uptos[1..]);
    }
  }

  /** Over every sequence of calls: the hooks run are exactly those of stage at most the largest
      stage asked for, each as often as it is registered, in non-decreasing order. */
  lemma RunsExactlyReached(t: seq<Hook>, uptos: seq<nat>)
    requires InOrder(t)
    ensures InOrder(Trace(t, 0, uptos))
    ensures forall h :: multiset(Trace(t, 0, uptos))[h] == if h.stage <= Largest(uptos) then multiset(t)[h] else 0
  {
    RunAllStands(t, 0, -1, uptos);
    var r := RunAll(t, 0, uptos);
    assert t[0..r] == t[..r];
    forall h ensures multiset(t[..r])[h] == if h.stage <= Largest(uptos) then multiset(t)[h] else 0 {
      CountBelow(t, r, Largest(uptos), h);
    }
  }

  lemma CountBelow(t: seq<Hook>, r: nat, m: int, h: Hook)
    requires StandsAt(t, r, m)
    ensures multiset(t[..r])[h] == if h.stage <= m then multiset(t)[h] else 0
  {
    assert t == t[..r] + t[r..];
    if h.stage <= m {
      assert h !in t[r..];
      assert h !in multiset(t[r..]);
    } else {
      assert h !in t[..r];
      assert h !in multiset(t[..r]);
    }
  }

  /** Asking for `a` and then `b` is asking for the larger of the two. */
  lemma TwoCallsAreOne(t: seq<Hook>, cur: nat, m: int, a: nat, b: nat)
    requires InOrder(t) && StandsAt(t, cur, m)
    ensures Reach(t, Reach(t, cur, a), b) == Reach(t, cur, if a > b then a else b)
    ensures Trace(t, cur, [a, b]) == Trace(t, cur, [if a > b then a else b])
  {
    var c, r := (if a > b then a else b), Reach(t, cur, a);
    ReachStands(t, cur, m, a);
    ReachStands(t, r, if a > m then a else m, b);
    ReachStands(t, cur, m, c);
    StandsAtOnce(t, Reach(t, r, b), Reach(t, cur, c), if c > m then c else m);
    RunOfTwo(t, cur, a, b);
    RunOfOne(t, cur, c);
    TraceIsSlice(t, cur, [a, b]);
    TraceIsSlice(t, cur, [c]);
  }

  lemma RunOfOne(t: seq<Hook>, cur: nat, u: nat)
    requires cur <= |t|
    ensures RunAll(t, cur, [u]) == Reach(t, cur, u)
  {
    assert [u][1..] == [];
  }

  lemma RunOfTwo(t: seq<Hook>, cur: nat, a: nat, b: nat)
    requires cur <= |t|
    ensures RunAll(t, cur, [a, b]) == Reach(t, Reach(t, cur, a), b)
  {
    assert [a, b][1..] == [b];
    RunOfOne(t, Reach(t, cur, a), b);
  }

  lemma StandsAtOnce(t: seq<Hook>, r: nat, s: nat, m: int)
    requires StandsAt(t, r, m) && StandsAt(t, s, m)
    ensures r == s
  {
    if r < |t| {
      assert t[r].stage > m;
    }
    if s < |t| {
      assert t[s].stage > m;
    }
  }

  /** What the header documents: of two hooks of one stage, the one with the higher priority
      number is called earlier. */
  ghost predicate HigherFirst(t: seq<Hook>) {
    forall i, j :: 0 <= i < |t| && 0 <= j < |t| && t[i].stage == t[j].stage && t[i].priority > t[j].priority ==> i < j
  }

  /** The sort does the opposite, so the documented order holds just when no two hooks of a
      stage differ in priority. */
  lemma HigherFirstOnlyWithoutChoice(t: seq<Hook>)
    requires InOrder(t)
    ensures HigherFirst(t) <==>
            forall i, j :: 0 <= i < |t| && 0 <= j < |t| && t[i].stage == t[j].stage ==> t[i].priority == t[j].priority
  {
    forall i, j | 0 <= i < |t| && 0 <= j < |t| && t[i].stage == t[j].stage && t[i].priority > t[j].priority
      ensures !HigherFirst(t)
    {
      if i < j {
        assert NotAfter(t[i], t[j]);
      }
    }
  }

  /** Two hooks of one stage with priorities 1 and 2: priority 1 runs first. */
  lemma HigherFirstFails()
    ensures exists t: seq<Hook> :: InOrder(t) && !HigherFirst(t)
  {
    var t := [Hook(2, 1, 0, 0, 0), Hook(2, 2, 0, 0, 0)];
    assert InOrder(t);
    assert t[1].priority > t[0].priority;
    assert !HigherFirst(t);
  }
}
