/** What each operation does after any run, said on the world before and after it: the
    tokens of the patch objects, where calls go, and what close is remembered for. */
module ProxyEffects {
  import opened Options
  import opened ProxyStack
  import opened ProxyRuns

  /** Where a call of open_connection with a host and a port goes. */
  function Dialled(w: World, host: string, port: nat): Route {
    RouteOf(w.asyncio, w.asyncio.open, false, Some(host), Some(port))
  }

  // --------------------------------------------------------------- install

  /** The object holds one more token, new to the run; open_connection is patched; calls for
      the address of the object's tunnel go to its proxy and no other call changes its way.
      It makes no difference whether the tunnel is open or closed. */
  lemma InstallTakesEffect(ops: seq<Op>, p: nat, host: string, port: nat)
    requires Possible(After(ops), Install(p))
    ensures var w, w' := After(ops), After(ops + [Install(p)]);
            var t := w.patches[p].tunnel;
            && w'.patches == w.patches[p := Patch(t, w.patches[p].tokens + [w.asyncio.next], true)]
            && !Live(w, w.asyncio.next)
            && w'.asyncio.open == Patched && Holders(w'.patches, t) > 0
            && Dialled(w', host, port) ==
               if host == w.tunnels[t].host then ToProxy(w.tunnels[t].port) else Dialled(w, host, port)
  {
    RunKeeps(ops);
    AfterOne(ops, Install(p));
    InstallStep(After(ops), p, host, port);
  }

  lemma InstallStep(w: World, p: nat, host: string, port: nat)
    requires Inv(w) && Possible(w, Install(p))
    ensures var w', t := AfterInstall(w, p), w.patches[p].tunnel;
            && w'.patches == w.patches[p := Patch(t, w.patches[p].tokens + [w.asyncio.next], true)]
            && !Live(w, w.asyncio.next)
            && w'.asyncio.open == Patched && Holders(w'.patches, t) > 0
            && Dialled(w', host, port) ==
               if host == w.tunnels[t].host then ToProxy(w.tunnels[t].port) else Dialled(w, host, port)
  {
    var w', t := AfterInstall(w, p), w.patches[p].tunnel;
    NextIsNew(w);
    ObjectPatched(w, p);
    HolderCounts(w'.patches, p);
    InstalledRoutes(w.asyncio, w.tunnels[t].host, w.tunnels[t].port, host, port);
  }

  lemma ObjectPatched(w: World, p: nat)
    requires Inv(w) && Possible(w, Install(p))
    ensures AfterInstall(w, p).patches ==
            w.patches[p := Patch(w.patches[p].tunnel, w.patches[p].tokens + [w.asyncio.next], true)]
  {
    assert PatchOk(w, w.patches[p]);
  }

  lemma InstalledRoutes(a: Asyncio, host: string, port: nat, dialled: string, at: nat)
    requires ModuleOk(a)
    ensures var a' := Installed(a, host, port);
            && a'.open == Patched
            && RouteOf(a', a'.open, false, Some(dialled), Some(at)) ==
               if dialled == host then ToProxy(port) else RouteOf(a, a.open, false, Some(dialled), Some(at))
  {
    var stack, entry := Entries(a), Entry(a.next, host, port);
    InstallKeepsModule(a, host, port);
    assert (stack + [entry])[..|stack|] == stack;
    assert LastFor(stack + [entry], dialled) == if dialled == host then Some(entry) else LastFor(stack, dialled);
  }

  lemma NextIsNew(w: World)
    requires Inv(w)
    ensures !Live(w, w.asyncio.next)
  {
    forall q: nat ensures !Owns(w, q, w.asyncio.next) {
      if q < |w.patches| {
        assert PatchOk(w, w.patches[q]);
      }
    }
  }

  // ------------------------------------------------------ restore and drop

  /** The object gives its newest token back, and no other token is touched. */
  lemma RestoreTakesEffect(ops: seq<Op>, p: nat)
    requires Possible(After(ops), Restore(p))
    ensures var w, w' := After(ops), After(ops + [Restore(p)]);
            var tokens := w.patches[p].tokens;
            && |w'.patches| == |w.patches|
            && (forall q :: 0 <= q < |w.patches| && q != p ==> w'.patches[q] == w.patches[q])
            && (tokens == [] ==> w' == w)
            && (tokens != [] ==>
                && w'.patches[p].tokens == tokens[..|tokens| - 1]
                && forall token :: Live(w', token) <==> Live(w, token) && token != tokens[|tokens| - 1])
  {
    RunKeeps(ops);
    AfterOne(ops, Restore(p));
    var w := After(ops);
    if w.patches[p].tokens == [] {
      NothingToRestore(w, p);
    } else {
      RestoreTakesOneToken(w, p);
      LiveLess(w, AfterRestore(w, p), w.patches[p].tokens[|w.patches[p].tokens| - 1..]);
    }
  }

  lemma LiveLess(w: World, w': World, gone: seq<Token>)
    requires forall q: nat, token :: Owns(w', q, token) <==> Owns(w, q, token) && token !in gone
    ensures forall token :: Live(w', token) <==> Live(w, token) && token !in gone
  {
    forall token ensures Live(w', token) <==> Live(w, token) && token !in gone {
      if Live(w', token) {
        var q: nat :| Owns(w', q, token);
        assert Owns(w, q, token);
      }
      if Live(w, token) && token !in gone {
        var q: nat :| Owns(w, q, token);
        assert Owns(w', q, token);
      }
    }
  }

  lemma DropTakesTokens(w: World, p: nat)
    requires Inv(w) && Possible(w, Drop(p))
    ensures var w' := AfterDrop(w, p);
            && w'.patches == w.patches[p := Patch(w.patches[p].tunnel, [], false)]
            && forall q: nat, token :: Owns(w', q, token) <==> Owns(w, q, token) && token !in w.patches[p].tokens
  {
    DropIsObjectDrop(w, p);
    DropRestoresAll(ClaimOf(w, p));
    assert PatchOk(w, w.patches[p]);
    forall q: nat, token | Owns(w, q, token) && token in w.patches[p].tokens ensures q == p {
      assert Owns(w, p, token);
    }
  }

  /** The object gives all its tokens back, and no other token is touched. */
  lemma DropTakesEffect(ops: seq<Op>, p: nat)
    requires Possible(After(ops), Drop(p))
    ensures var w, w' := After(ops), After(ops + [Drop(p)]);
            && w'.patches == w.patches[p := Patch(w.patches[p].tunnel, [], false)]
            && forall token :: Live(w', token) <==> Live(w, token) && token !in w.patches[p].tokens
  {
    RunKeeps(ops);
    AfterOne(ops, Drop(p));
    DropTakesTokens(After(ops), p);
    LiveLess(After(ops), AfterDrop(After(ops), p), After(ops).patches[p].tokens);
  }

  lemma {:induction false} WithoutAbsent(stack: seq<Entry>, token: Token)
    requires forall e :: e in stack ==> e.token != token
    ensures Without(stack, token) == stack
    decreases |stack|
  {
    if stack != [] {
      var front, last := stack[..|stack| - 1], stack[|stack| - 1];
      assert stack == front + [last];
      WithoutAbsent(front, token);
    }
  }

  /** Restoring right after installing undoes it altogether: module, tunnels and patch
      objects are as before; only the token is used up. */
  lemma RestoreUndoesInstall(ops: seq<Op>, p: nat)
    requires Possible(After(ops), Install(p))
    ensures var w := After(ops);
            After(ops + [Install(p)] + [Restore(p)]) == w.(asyncio := w.asyncio.(next := w.asyncio.next + 1))
  {
    RunKeeps(ops);
    AfterOne(ops, Install(p));
    AfterOne(ops + [Install(p)], Restore(p));
    RestoreUndoesStep(After(ops), p);
  }

  lemma RestoreUndoesStep(w: World, p: nat)
    requires Inv(w) && Possible(w, Install(p))
    ensures AfterRestore(AfterInstall(w, p), p) == w.(asyncio := w.asyncio.(next := w.asyncio.next + 1))
  {
    var c, t := ClaimOf(w, p), w.patches[p].tunnel;
    assert PatchOk(w, w.patches[p]) && TunnelOk(w.tunnels[t], Holders(w.patches, t));
    if c.tokens != [] {
      HolderCounts(w.patches, p);
    }
    RestoreUndoesOn(c);
    var c' := c.(asyncio := w.asyncio.(next := w.asyncio.next + 1));
    assert ClaimOf(AfterInstall(w, p), p) == InstallOn(c);
    assert Put(AfterInstall(w, p), p, c') == Put(w, p, c');
  }

  lemma RestoreUndoesOn(c: Claim)
    requires ModuleOk(c.asyncio) && (c.keepalive <==> c.tokens != [])
    requires c.tunnel.closing && c.tunnel.retained == 0 ==> !c.tunnel.device
    ensures RestoreOn(InstallOn(c)) == c.(asyncio := c.asyncio.(next := c.asyncio.next + 1))
  {
    RestoredUndoesInstalled(c.asyncio, c.tunnel.host, c.tunnel.port);
    assert (c.tokens + [c.asyncio.next])[..|c.tokens|] == c.tokens;
  }

  lemma RestoredUndoesInstalled(a: Asyncio, host: string, port: nat)
    requires ModuleOk(a)
    ensures Restored(Installed(a, host, port), a.next) == a.(next := a.next + 1)
  {
    var stack := Entries(a);
    assert (stack + [Entry(a.next, host, port)])[..|stack|] == stack;
    WithoutAbsent(stack, a.next);
  }

  lemma HolderCounts(patches: seq<Patch>, p: nat)
    requires p < |patches| && patches[p].tokens != []
    ensures Holders(patches, patches[p].tunnel) > 0
  {
    HoldersUpdate(patches, p, patches[p].(tokens := []), patches[p].tunnel);
  }

  // ---------------------------------------------------------- other calls

  /** A call that brings its own socket, or lacks a host or a port, dials directly after
      every run. */
  lemma OtherCallsDialDirectly(ops: seq<Op>, sock: bool, host: Option<string>, port: Option<nat>)
    requires sock || host.None? || port.None?
    ensures var a := After(ops).asyncio; RouteOf(a, a.open, sock, host, port) == ToOriginal
  {
    RunKeeps(ops);
  }

  // ------------------------------------------------------ tunnels and close

  /** The addresses of the tunnels opened so far. */
  function Opened(ops: seq<Op>): seq<(string, nat)> {
    if ops == [] then []
    else
      var op := ops[|ops| - 1];
      Opened(ops[..|ops| - 1]) + if op.OpenTunnel? then [(op.host, op.port)] else []
  }

  /** The tunnels that the patch objects made so far belong to. */
  function Made(ops: seq<Op>): seq<nat> {
    if ops == [] then []
    else
      var front, op := ops[..|ops| - 1], ops[|ops| - 1];
      Made(front) + if op.NewPatch? && op.tunnel < |Opened(front)| then [op.tunnel] else []
  }

  /** Close was called for the tunnel, once it was open. */
  ghost predicate CloseAsked(ops: seq<Op>, t: nat) {
    exists k :: 0 <= k < |ops| && ops[k] == Close(t) && t < |Opened(ops[..k])|
  }

  /** The tunnels have the addresses they were opened with and are closed when asked to be,
      and the patch objects belong to the tunnels they were made for. */
  ghost predicate Mirrors(w: World, ops: seq<Op>) {
    && |w.patches| == |Made(ops)| && (forall p :: 0 <= p < |w.patches| ==> w.patches[p].tunnel == Made(ops)[p])
    && |w.tunnels| == |Opened(ops)|
    && forall t :: 0 <= t < |w.tunnels| ==>
         && (w.tunnels[t].host, w.tunnels[t].port) == Opened(ops)[t]
         && (w.tunnels[t].closing <==> CloseAsked(ops, t))
  }

  /** Steps of patch objects leave address and close of every tunnel alone, and no object
      changes its tunnel. */
  ghost predicate SameTunnels(w: World, w': World) {
    && |w'.tunnels| == |w.tunnels| && |w'.patches| == |w.patches|
    && (forall p :: 0 <= p < |w.patches| ==> w'.patches[p].tunnel == w.patches[p].tunnel)
    && forall t :: 0 <= t < |w.tunnels| ==>
         && w'.tunnels[t].host == w.tunnels[t].host && w'.tunnels[t].port == w.tunnels[t].port
         && w'.tunnels[t].closing == w.tunnels[t].closing
  }

  lemma {:induction false} DropLeavesTunnels(w: World, p: nat)
    requires Possible(w, Drop(p))
    ensures SameTunnels(w, AfterDrop(w, p))
    decreases |w.patches[p].tokens|
  {
    if w.patches[p].tokens != [] {
      DropLeavesTunnels(AfterRestore(w, p), p);
    }
  }

  lemma CloseAskedOn(ops: seq<Op>, t: nat)
    requires ops != []
    ensures var front := ops[..|ops| - 1];
            CloseAsked(ops, t) <==> CloseAsked(front, t) || (ops[|ops| - 1] == Close(t) && t < |Opened(front)|)
  {
    var front := ops[..|ops| - 1];
    assert forall k :: 0 <= k <= |front| ==> front[..k] == ops[..k];
    assert front[..|front|] == front;
    if CloseAsked(front, t) {
      var k :| 0 <= k < |front| && front[k] == Close(t) && t < |Opened(front[..k])|;
      assert ops[k] == Close(t) && t < |Opened(ops[..k])|;
    }
    if ops[|ops| - 1] == Close(t) && t < |Opened(front)| {
      assert ops[|front|] == Close(t) && t < |Opened(ops[..|front|])|;
    }
  }

  /** After every run the tunnels are those opened, in that order and with their addresses,
      and a tunnel is marked closed exactly when close was called for it, patched or not. The
      patch objects are those made, each on its tunnel. */
  lemma {:induction false} TunnelsMirrorRun(ops: seq<Op>)
    ensures Mirrors(After(ops), ops)
    decreases |ops|
  {
    if ops != [] {
      var front, op := ops[..|ops| - 1], ops[|ops| - 1];
      TunnelsMirrorRun(front);
      var w := After(front);
      if Possible(w, op) && op.Drop? {
        DropLeavesTunnels(w, op.patch);
      }
      forall t: nat
        ensures CloseAsked(ops, t) <==> CloseAsked(front, t) || (op == Close(t) && t < |Opened(front)|)
      {
        CloseAskedOn(ops, t);
      }
      if op.OpenTunnel? {
        NotAskedYet(front);
      }
    }
  }

  lemma NotAskedYet(ops: seq<Op>)
    ensures !CloseAsked(ops, |Opened(ops)|)
  {
    forall k | 0 <= k <= |ops| ensures |Opened(ops[..k])| <= |Opened(ops)| {
      OpenedGrows(ops, k);
    }
  }

  lemma {:induction false} OpenedGrows(ops: seq<Op>, k: nat)
    requires k <= |ops|
    ensures |Opened(ops[..k])| <= |Opened(ops)|
    decreases |ops|
  {
    if k == |ops| {
      assert ops[..k] == ops;
    } else {
      var front := ops[..|ops| - 1];
      assert front[..k] == ops[..k];
      OpenedGrows(front, k);
    }
  }

  /** No patch object of the tunnel holds a token. */
  ghost predicate Unpatched(w: World, t: nat) {
    forall p :: 0 <= p < |w.patches| && w.patches[p].tunnel == t ==> w.patches[p].tokens == []
  }

  lemma {:induction false} NoHoldersIffUnpatched(patches: seq<Patch>, t: nat)
    ensures Holders(patches, t) == 0 <==>
            forall p :: 0 <= p < |patches| && patches[p].tunnel == t ==> patches[p].tokens == []
    decreases |patches|
  {
    if patches != [] {
      NoHoldersIffUnpatched(patches[..|patches| - 1], t);
    }
  }

  /** Over a whole run a tunnel has lost its device exactly when, at some moment, close had
      been called for it, then or before, and none of its patch objects held a token. */
  lemma DeviceGoneAfterClose(ops: seq<Op>, t: nat)
    requires t < |Opened(ops)|
    ensures t < |After(ops).tunnels|
    ensures !After(ops).tunnels[t].device <==>
            exists k :: 0 <= k <= |ops| && CloseAsked(ops[..k], t) && Unpatched(After(ops[..k]), t)
  {
    TunnelsMirrorRun(ops);
    DeviceGoneWhenOnceUnneeded(ops, t);
    forall k | 0 <= k <= |ops|
      ensures Unneeded(After(ops[..k]), t) <==> CloseAsked(ops[..k], t) && Unpatched(After(ops[..k]), t)
    {
      TunnelsMirrorRun(ops[..k]);
      NoHoldersIffUnpatched(After(ops[..k]).patches, t);
      if CloseAsked(ops[..k], t) { AskedWhenOpen(ops[..k], t); }
    }
  }

  lemma AskedWhenOpen(ops: seq<Op>, t: nat)
    requires CloseAsked(ops, t)
    ensures t < |Opened(ops)|
  {
    var k :| 0 <= k < |ops| && ops[k] == Close(t) && t < |Opened(ops[..k])|;
    OpenedGrows(ops, k);
  }
}
