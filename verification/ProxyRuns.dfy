/** Whole runs of the patch objects: any number of tunnels and patch objects,
    installing, restoring, dropping and closing in any order. */
module ProxyRuns {
  import opened Options
  import opened ProxyStack

  datatype World = World(asyncio: Asyncio, tunnels: seq<Tunnel>, patches: seq<Patch>)

  datatype Op =
    | OpenTunnel(host: string, port: nat)
    | NewPatch(tunnel: nat)
    | Install(patch: nat)
    | Restore(patch: nat)
    | Drop(patch: nat)
    | Close(tunnel: nat)

  const START := World(FRESH, [], [])

  predicate Possible(w: World, op: Op) {
    match op
    case OpenTunnel(_, _) => true
    case NewPatch(t) => t < |w.tunnels|
    case Close(t) => t < |w.tunnels|
    case Install(p) => p < |w.patches| && w.patches[p].tunnel < |w.tunnels|
    case Restore(p) => p < |w.patches| && w.patches[p].tunnel < |w.tunnels|
    case Drop(p) => p < |w.patches| && w.patches[p].tunnel < |w.tunnels|
  }

  /** What patch object p works on. */
  function ClaimOf(w: World, p: nat): Claim
    requires Possible(w, Install(p))
  {
    Claim(w.asyncio, w.tunnels[w.patches[p].tunnel], w.patches[p].tokens, w.patches[p].keepalive)
  }

  /** The world after patch object p has changed what it works on. */
  function Put(w: World, p: nat, c: Claim): World
    requires Possible(w, Install(p))
  {
    var t := w.patches[p].tunnel;
    World(c.asyncio, w.tunnels[t := c.tunnel], w.patches[p := Patch(t, c.tokens, c.keepalive)])
  }

  function AfterInstall(w: World, p: nat): World
    requires Possible(w, Install(p))
  {
    Put(w, p, InstallOn(ClaimOf(w, p)))
  }

  function AfterRestore(w: World, p: nat): World
    requires Possible(w, Restore(p))
  {
    Put(w, p, RestoreOn(ClaimOf(w, p)))
  }

  function AfterDrop(w: World, p: nat): World
    requires Possible(w, Drop(p))
    decreases |w.patches[p].tokens|
  {
    if w.patches[p].tokens == [] then w else AfterDrop(AfterRestore(w, p), p)
  }

  /** An operation on an object that does not exist changes nothing. */
  function Step(w: World, op: Op): World {
    if !Possible(w, op) then w
    else
      match op
      case OpenTunnel(host, port) => w.(tunnels := w.tunnels + [Tunnel(host, port, true, 0, false)])
      case NewPatch(t) => w.(patches := w.patches + [Patch(t, [], false)])
      case Close(t) => w.(tunnels := w.tunnels[t := Closed(w.tunnels[t])])
      case Install(p) => AfterInstall(w, p)
      case Restore(p) => AfterRestore(w, p)
      case Drop(p) => AfterDrop(w, p)
  }

  function After(ops: seq<Op>): World {
    if ops == [] then START else Step(After(ops[..|ops| - 1]), ops[|ops| - 1])
  }

  // ------------------------------------------------- what every run keeps

  predicate Increasing(s: seq<Entry>) {
    forall i, j :: 0 <= i < j < |s| ==> s[i].token < s[j].token
  }

  /** The module attributes fit together: patched exactly while entries remain, with the
      true original put aside and the entries in installation order. */
  predicate ModuleOk(a: Asyncio) {
    && (a.stack.None? ==> a.open == Original && a.saved.None?)
    && (a.stack.Some? ==> a.open == Patched && a.saved == Some(Original) && a.stack.value != [])
    && Increasing(Entries(a))
    && forall e :: e in Entries(a) ==> e.token < a.next
  }

  ghost predicate Owns(w: World, p: nat, token: Token) {
    p < |w.patches| && token in w.patches[p].tokens
  }

  /** A token is live while some patch object holds it. */
  ghost predicate Live(w: World, token: Token) {
    exists p: nat :: Owns(w, p, token)
  }

  predicate PatchOk(w: World, patch: Patch) {
    && patch.tunnel < |w.tunnels|
    && (patch.keepalive <==> patch.tokens != [])
    && (forall i, j :: 0 <= i < j < |patch.tokens| ==> patch.tokens[i] != patch.tokens[j])
    && forall token :: token in patch.tokens ==>
         Entry(token, w.tunnels[patch.tunnel].host, w.tunnels[patch.tunnel].port) in Entries(w.asyncio)
  }

  /** Entries and tokens correspond: each entry belongs to exactly one patch object. */
  ghost predicate OwnershipOk(w: World) {
    && (forall p :: 0 <= p < |w.patches| ==> PatchOk(w, w.patches[p]))
    && (forall e :: e in Entries(w.asyncio) ==> Live(w, e.token))
    && forall p: nat, q: nat, token :: Owns(w, p, token) && Owns(w, q, token) ==> p == q
  }

  /** How many patch objects of a tunnel hold at least one token. */
  function Holders(patches: seq<Patch>, t: nat): nat {
    if patches == [] then 0
    else
      var last := patches[|patches| - 1];
      Holders(patches[..|patches| - 1], t) + if last.tunnel == t && last.tokens != [] then 1 else 0
  }

  predicate TunnelOk(tunnel: Tunnel, holders: nat) {
    && tunnel.retained == holders
    && (!tunnel.device ==> tunnel.closing)
    && (tunnel.closing && holders == 0 ==> !tunnel.device)
  }

  ghost predicate TunnelsOk(w: World) {
    forall t :: 0 <= t < |w.tunnels| ==> TunnelOk(w.tunnels[t], Holders(w.patches, t))
  }

  ghost predicate Inv(w: World) {
    ModuleOk(w.asyncio) && OwnershipOk(w) && TunnelsOk(w)
  }

  lemma {:induction false} HoldersUpdate(patches: seq<Patch>, p: nat, patch: Patch, t: nat)
    requires p < |patches| && patch.tunnel == patches[p].tunnel
    ensures Holders(patches[p := patch], t)
            + (if patch.tunnel == t && patches[p].tokens != [] then 1 else 0)
         == Holders(patches, t)
            + if patch.tunnel == t && patch.tokens != [] then 1 else 0
    decreases |patches|
  {
    var front := patches[..|patches| - 1];
    if p == |patches| - 1 {
      assert patches[p := patch][..|patches| - 1] == front;
    } else {
      assert patches[p := patch][..|patches| - 1] == front[p := patch];
      HoldersUpdate(front, p, patch, t);
    }
  }

  lemma {:induction false} WithoutKeepsOrder(stack: seq<Entry>, token: Token)
    requires Increasing(stack)
    ensures Increasing(Without(stack, token))
    decreases |stack|
  {
    if stack != [] {
      var front := stack[..|stack| - 1];
      WithoutKeepsOrder(front, token);
      forall e | e in Without(front, token) ensures e.token < stack[|stack| - 1].token {
        assert e in front;
      }
    }
  }

  lemma InstallKeepsModule(a: Asyncio, host: string, port: nat)
    requires ModuleOk(a)
    ensures ModuleOk(Installed(a, host, port))
    ensures Entries(Installed(a, host, port)) == Entries(a) + [Entry(a.next, host, port)]
  {
  }

  lemma RestoreKeepsModule(a: Asyncio, token: Token)
    requires ModuleOk(a)
    ensures ModuleOk(Restored(a, token))
    ensures Entries(Restored(a, token)) == Without(Entries(a), token)
  {
    WithoutKeepsOrder(Entries(a), token);
  }

  lemma InstallKeepsOwnership(w: World, p: nat)
    requires ModuleOk(w.asyncio) && OwnershipOk(w) && Possible(w, Install(p))
    ensures OwnershipOk(AfterInstall(w, p))
  {
    var w' := AfterInstall(w, p);
    var t := w.tunnels[w.patches[p].tunnel];
    var newest := w.asyncio.next;
    InstallKeepsModule(w.asyncio, t.host, t.port);
    assert forall i :: 0 <= i < |w.tunnels| ==>
      w'.tunnels[i].host == w.tunnels[i].host && w'.tunnels[i].port == w.tunnels[i].port;
    forall q: nat, token | Owns(w, q, token) ensures token < newest {
      assert PatchOk(w, w.patches[q]);
    }
    forall q: nat, token ensures Owns(w', q, token) <==> Owns(w, q, token) || (q == p && token == newest) { }
    forall q | 0 <= q < |w'.patches| ensures PatchOk(w', w'.patches[q]) {
      assert PatchOk(w, w.patches[q]);
      if q == p {
        var tokens := w.patches[p].tokens;
        forall i | 0 <= i < |tokens| ensures tokens[i] != newest { assert Owns(w, p, tokens[i]); }
      }
    }
    forall e | e in Entries(w'.asyncio) ensures Live(w', e.token) {
      if e in Entries(w.asyncio) {
        var q :| Owns(w, q, e.token);
        assert Owns(w', q, e.token);
      } else {
        assert Owns(w', p, e.token);
      }
    }
  }

  lemma RestoreTakesOneToken(w: World, p: nat)
    requires OwnershipOk(w) && Possible(w, Restore(p)) && w.patches[p].tokens != []
    ensures var tokens := w.patches[p].tokens;
            forall q: nat, token ::
              Owns(AfterRestore(w, p), q, token) <==> Owns(w, q, token) && token != tokens[|tokens| - 1]
  {
    var tokens := w.patches[p].tokens;
    var front, gone := tokens[..|tokens| - 1], tokens[|tokens| - 1];
    assert tokens == front + [gone];
    assert PatchOk(w, w.patches[p]);
    assert gone !in front && Owns(w, p, gone);
  }

  lemma RestoreKeepsOwnership(w: World, p: nat)
    requires ModuleOk(w.asyncio) && OwnershipOk(w) && Possible(w, Restore(p)) && w.patches[p].tokens != []
    ensures OwnershipOk(AfterRestore(w, p))
  {
    var w' := AfterRestore(w, p);
    var tokens := w.patches[p].tokens;
    var gone := tokens[|tokens| - 1];
    RestoreKeepsModule(w.asyncio, gone);
    RestoreTakesOneToken(w, p);
    assert forall i :: 0 <= i < |w.tunnels| ==>
      w'.tunnels[i].host == w.tunnels[i].host && w'.tunnels[i].port == w.tunnels[i].port;
    forall q | 0 <= q < |w'.patches| ensures PatchOk(w', w'.patches[q]) {
      assert PatchOk(w, w.patches[q]);
      forall token | token in w'.patches[q].tokens ensures token != gone { assert Owns(w', q, token); }
    }
    forall e | e in Entries(w'.asyncio) ensures Live(w', e.token) {
      var q :| Owns(w, q, e.token);
      assert Owns(w', q, e.token);
    }
  }

  lemma InstallKeeps(w: World, p: nat)
    requires Inv(w) && Possible(w, Install(p))
    ensures Inv(AfterInstall(w, p))
  {
    var w' := AfterInstall(w, p);
    var t := w.tunnels[w.patches[p].tunnel];
    InstallKeepsModule(w.asyncio, t.host, t.port);
    InstallKeepsOwnership(w, p);
    forall i | 0 <= i < |w'.tunnels| ensures TunnelOk(w'.tunnels[i], Holders(w'.patches, i)) {
      HoldersUpdate(w.patches, p, w'.patches[p], i);
      assert TunnelOk(w.tunnels[i], Holders(w.patches, i));
    }
  }

  lemma NothingToRestore(w: World, p: nat)
    requires Possible(w, Restore(p)) && w.patches[p].tokens == []
    ensures AfterRestore(w, p) == w
  {
    assert w == Put(w, p, ClaimOf(w, p));
  }

  lemma RestoreKeeps(w: World, p: nat)
    requires Inv(w) && Possible(w, Restore(p))
    ensures Inv(AfterRestore(w, p))
  {
    if w.patches[p].tokens != [] {
      var w' := AfterRestore(w, p);
      var tokens := w.patches[p].tokens;
      RestoreKeepsModule(w.asyncio, tokens[|tokens| - 1]);
      RestoreKeepsOwnership(w, p);
      assert PatchOk(w, w.patches[p]);
      forall i | 0 <= i < |w'.tunnels| ensures TunnelOk(w'.tunnels[i], Holders(w'.patches, i)) {
        HoldersUpdate(w.patches, p, w'.patches[p], i);
        assert TunnelOk(w.tunnels[i], Holders(w.patches, i));
      }
    } else {
      NothingToRestore(w, p);
    }
  }

  lemma {:induction false} DropKeeps(w: World, p: nat)
    requires Inv(w) && Possible(w, Drop(p))
    ensures Inv(AfterDrop(w, p))
    decreases |w.patches[p].tokens|
  {
    if w.patches[p].tokens != [] {
      RestoreKeeps(w, p);
      DropKeeps(AfterRestore(w, p), p);
    }
  }

  lemma OtherStepsKeep(w: World, op: Op)
    requires Inv(w) && Possible(w, op) && (op.OpenTunnel? || op.NewPatch? || op.Close?)
    ensures Inv(Step(w, op))
  {
    var w' := Step(w, op);
    forall q: nat, token ensures Owns(w', q, token) <==> Owns(w, q, token) { }
    forall e | e in Entries(w'.asyncio) ensures Live(w', e.token) {
      var q: nat :| Owns(w, q, e.token);
      assert Owns(w', q, e.token);
    }
    forall q | 0 <= q < |w'.patches| ensures PatchOk(w', w'.patches[q]) {
      if q < |w.patches| { assert PatchOk(w, w.patches[q]); }
    }
    forall i | 0 <= i < |w'.tunnels| ensures TunnelOk(w'.tunnels[i], Holders(w'.patches, i)) {
      if i < |w.tunnels| {
        assert TunnelOk(w.tunnels[i], Holders(w.patches, i));
      } else {
        NoHolders(w.patches, i);
      }
      if op.NewPatch? {
        assert w'.patches[..|w.patches|] == w.patches;
      }
    }
  }

  lemma {:induction false} NoHolders(patches: seq<Patch>, t: nat)
    requires forall p :: 0 <= p < |patches| ==> patches[p].tunnel < t
    ensures Holders(patches, t) == 0
    decreases |patches|
  {
    if patches != [] {
      NoHolders(patches[..|patches| - 1], t);
    }
  }

  lemma StepKeeps(w: World, op: Op)
    requires Inv(w)
    ensures Inv(Step(w, op))
  {
    if Possible(w, op) {
      match op
      case Install(p) => InstallKeeps(w, p);
      case Restore(p) => RestoreKeeps(w, p);
      case Drop(p) => DropKeeps(w, p);
      case _ => OtherStepsKeep(w, op);
    }
  }

  /** Every run keeps the invariant: in particular the count a tunnel retains is the
      number of its patch objects that hold a token. */
  lemma {:induction false} RunKeeps(ops: seq<Op>)
    ensures Inv(After(ops))
    decreases |ops|
  {
    if ops != [] {
      RunKeeps(ops[..|ops| - 1]);
      StepKeeps(After(ops[..|ops| - 1]), ops[|ops| - 1]);
    }
  }

  /** After every run open_connection is the original exactly when no token is live, and
      then the module is as it was before anything was installed; otherwise the saved
      original is the true one. */
  lemma OriginalWhenNothingLive(ops: seq<Op>)
    ensures var w := After(ops);
            && (w.asyncio.open == Original <==> forall token :: !Live(w, token))
            && (w.asyncio.open == Original ==> w.asyncio.(next := 0) == FRESH)
            && (w.asyncio.open == Patched ==> w.asyncio.saved == Some(Original))
  {
    RunKeeps(ops);
    var w := After(ops);
    forall token | Live(w, token) ensures w.asyncio.stack.Some? {
      var p: nat :| Owns(w, p, token);
      assert PatchOk(w, w.patches[p]);
    }
    if w.asyncio.open == Patched {
      assert Entries(w.asyncio)[0] in Entries(w.asyncio);
      assert Live(w, Entries(w.asyncio)[0].token);
    }
  }

  /** A patch object serves a host through a token when it holds it and its tunnel has
      that address. */
  ghost predicate Serves(w: World, p: nat, token: Token, host: string) {
    Owns(w, p, token) && w.patches[p].tunnel < |w.tunnels| && w.tunnels[w.patches[p].tunnel].host == host
  }

  lemma {:induction false} LastForIsNewest(stack: seq<Entry>, host: string)
    requires Increasing(stack)
    ensures LastFor(stack, host).None? ==> forall e :: e in stack ==> e.host != host
    ensures LastFor(stack, host).Some? ==>
            var found := LastFor(stack, host).value;
            found in stack && found.host == host && forall e :: e in stack && e.host == host ==> e.token <= found.token
    decreases |stack|
  {
    if stack != [] {
      var front, last := stack[..|stack| - 1], stack[|stack| - 1];
      assert stack == front + [last];
      if last.host == host {
        forall e | e in stack ensures e.token <= last.token {
          var i :| 0 <= i < |stack| && stack[i] == e;
        }
      } else {
        LastForIsNewest(front, host);
      }
    }
  }

  /** After every run, a call for a host and a port goes to the proxy of the patch object
      holding the newest live token for that host, and to the original exactly when no
      live token serves the host. */
  lemma RoutedToNewest(ops: seq<Op>, host: string, port: nat) returns (p: nat, token: Token)
    ensures var w := After(ops);
            var route := RouteOf(w.asyncio, w.asyncio.open, false, Some(host), Some(port));
            && (route == ToOriginal <==> forall q: nat, t: Token :: !Serves(w, q, t, host))
            && (route != ToOriginal ==>
                && Serves(w, p, token, host)
                && route == ToProxy(w.tunnels[w.patches[p].tunnel].port)
                && forall q: nat, t: Token :: Serves(w, q, t, host) ==> t <= token)
  {
    RunKeeps(ops);
    var w := After(ops);
    var stack := Entries(w.asyncio);
    LastForIsNewest(stack, host);
    p, token := 0, 0;
    forall q: nat, t: Token | Serves(w, q, t, host)
      ensures exists e :: e in stack && e.host == host && e.token == t
    {
      assert PatchOk(w, w.patches[q]);
    }
    if LastFor(stack, host).Some? {
      var found := LastFor(stack, host).value;
      token := found.token;
      assert Live(w, token);
      p :| Owns(w, p, token);
      assert PatchOk(w, w.patches[p]);
      TokensAreUnique(stack, found, token);
      assert Serves(w, p, token, host);
    }
  }

  lemma TokensAreUnique(stack: seq<Entry>, found: Entry, token: Token)
    requires Increasing(stack) && found in stack && found.token == token
    ensures forall e :: e in stack && e.token == token ==> e == found
  {
    var i :| 0 <= i < |stack| && stack[i] == found;
    forall e | e in stack && e.token == token ensures e == found {
      var j :| 0 <= j < |stack| && stack[j] == e;
    }
  }

  /** A patched function that user code kept a reference to fails exactly when no token is
      live. */
  lemma StalePatchedFunction(ops: seq<Op>, sock: bool, host: Option<string>, port: Option<nat>)
    ensures var w := After(ops);
            RouteOf(w.asyncio, Patched, sock, host, port) == MissingAttribute <==> forall token :: !Live(w, token)
  {
    RunKeeps(ops);
    OriginalWhenNothingLive(ops);
  }

  /** Restoring step by step in the world is the object's own loop, on module, tunnel and
      tokens together. */
  lemma {:induction false} DropIsObjectDrop(w: World, p: nat)
    requires Possible(w, Drop(p))
    ensures AfterDrop(w, p) == Put(w, p, DropOn(ClaimOf(w, p)))
    decreases |w.patches[p].tokens|
  {
    if w.patches[p].tokens == [] {
      NothingToRestore(w, p);
    } else {
      var w' := AfterRestore(w, p);
      DropIsObjectDrop(w', p);
      assert ClaimOf(w', p) == RestoreOn(ClaimOf(w, p));
      assert Put(w', p, DropOn(ClaimOf(w', p))) == Put(w, p, DropOn(ClaimOf(w', p)));
    }
  }

  // --------------------------------------------------------------- devices

  /** Close was asked for and no patch object of the tunnel holds a token. */
  predicate Unneeded(w: World, t: nat) {
    t < |w.tunnels| && w.tunnels[t].closing && Holders(w.patches, t) == 0
  }

  predicate HasDevice(w: World, t: nat) {
    t < |w.tunnels| && w.tunnels[t].device
  }

  lemma RestoreAndDevice(w: World, p: nat, t: nat)
    requires Inv(w) && Possible(w, Restore(p))
    ensures var w' := AfterRestore(w, p);
            && |w'.tunnels| == |w.tunnels|
            && (Unneeded(w, t) ==> Unneeded(w', t))
            && (HasDevice(w', t) <==> HasDevice(w, t) && !Unneeded(w', t))
  {
    RestoreKeeps(w, p);
    var w' := AfterRestore(w, p);
    if w.patches[p].tokens != [] && t < |w.tunnels| {
      HoldersUpdate(w.patches, p, w'.patches[p], t);
      assert TunnelOk(w.tunnels[t], Holders(w.patches, t)) && TunnelOk(w'.tunnels[t], Holders(w'.patches, t));
    }
  }

  lemma {:induction false} DropAndDevice(w: World, p: nat, t: nat)
    requires Inv(w) && Possible(w, Drop(p))
    ensures var w' := AfterDrop(w, p);
            && |w'.tunnels| == |w.tunnels|
            && (Unneeded(w, t) ==> Unneeded(w', t))
            && (HasDevice(w', t) <==> HasDevice(w, t) && !Unneeded(w', t))
    decreases |w.patches[p].tokens|
  {
    if w.patches[p].tokens != [] {
      RestoreKeeps(w, p);
      RestoreAndDevice(w, p, t);
      DropAndDevice(AfterRestore(w, p), p, t);
    } else if t < |w.tunnels| {
      assert TunnelOk(w.tunnels[t], Holders(w.patches, t));
    }
  }

  /** A step takes a device away exactly when it leaves the tunnel closed and unused, so
      never while a patch of that tunnel is installed; and no step brings one back. */
  lemma StepAndDevice(w: World, op: Op, t: nat)
    requires Inv(w) && t < |w.tunnels|
    ensures var w' := Step(w, op);
            HasDevice(w', t) <==> HasDevice(w, t) && !Unneeded(w', t)
  {
    var w' := Step(w, op);
    StepKeeps(w, op);
    assert TunnelOk(w.tunnels[t], Holders(w.patches, t));
    if Possible(w, op) {
      match op
      case Install(p) =>
        HoldersUpdate(w.patches, p, w'.patches[p], t);
        assert TunnelOk(w'.tunnels[t], Holders(w'.patches, t));
      case Restore(p) => RestoreAndDevice(w, p, t);
      case Drop(p) => DropAndDevice(w, p, t);
      case _ => assert TunnelOk(w'.tunnels[t], Holders(w'.patches, t));
    }
  }

  lemma TunnelsStay(w: World, op: Op, t: nat)
    requires Inv(w) && t < |Step(w, op).tunnels|
    ensures t < |w.tunnels| || (HasDevice(Step(w, op), t) && !Unneeded(Step(w, op), t))
  {
    if Possible(w, op) && op.Drop? {
      DropAndDevice(w, op.patch, t);
    }
  }

  /** Over a whole run a tunnel has lost its device exactly when, at some moment of the
      run, close had been asked for and no patch of it was installed. */
  lemma {:induction false} DeviceGoneWhenOnceUnneeded(ops: seq<Op>, t: nat)
    requires t < |After(ops).tunnels|
    ensures !HasDevice(After(ops), t) <==> exists k :: 0 <= k <= |ops| && Unneeded(After(ops[..k]), t)
    decreases |ops|
  {
    assert ops[..|ops|] == ops;
    if ops != [] {
      var front, op := ops[..|ops| - 1], ops[|ops| - 1];
      var w := After(front);
      RunKeeps(front);
      TunnelsStay(w, op, t);
      if t < |w.tunnels| {
        StepAndDevice(w, op, t);
        DeviceGoneWhenOnceUnneeded(front, t);
        if !HasDevice(w, t) {
          var k :| 0 <= k <= |front| && Unneeded(After(front[..k]), t);
          assert front[..k] == ops[..k];
        }
        forall k | 0 <= k < |ops| && Unneeded(After(ops[..k]), t) ensures !HasDevice(w, t) {
          assert ops[..k] == front[..k];
        }
      } else {
        forall k | 0 <= k < |ops| ensures !Unneeded(After(ops[..k]), t) {
          assert ops[..k] == front[..k];
          NotYetOpened(front, k, t);
        }
      }
    }
  }

  lemma {:induction false} NotYetOpened(ops: seq<Op>, k: nat, t: nat)
    requires k <= |ops| && |After(ops).tunnels| <= t
    ensures |After(ops[..k]).tunnels| <= t
    decreases |ops|
  {
    assert ops[..|ops|] == ops;
    if k < |ops| {
      var front := ops[..|ops| - 1];
      RunKeeps(front);
      var w, op := After(front), ops[|ops| - 1];
      if Possible(w, op) && op.Drop? {
        DropAndDevice(w, op.patch, t);
      }
      assert ops[..k] == front[..k];
      NotYetOpened(front, k, t);
    }
  }

  /** A patch installed on a tunnel already closed and unused finds the device gone, and
      holding a token does not bring it back. */
  lemma InstallAfterCloseHasNoDevice(ops: seq<Op>, p: nat, t: nat)
    requires var w := After(ops); Unneeded(w, t) && p < |w.patches| && w.patches[p].tunnel == t
    ensures var w' := After(ops + [Install(p)]); Holders(w'.patches, t) == 1 && !HasDevice(w', t)
  {
    RunKeeps(ops);
    AfterOne(ops, Install(p));
    var w, w' := After(ops), After(ops + [Install(p)]);
    assert TunnelOk(w.tunnels[t], Holders(w.patches, t));
    HoldersUpdate(w.patches, p, w.patches[p].(tokens := []), t);
    assert w.patches[p].tokens == [];
    HoldersUpdate(w.patches, p, w'.patches[p], t);
  }

  lemma AfterOne(ops: seq<Op>, op: Op)
    ensures After(ops + [op]) == Step(After(ops), op)
  {
    assert (ops + [op])[..|ops|] == ops;
  }

  /** Open, patch, close, install: the object holds a token on a tunnel without device. */
  lemma ClosedThenInstalled(host: string, port: nat)
    ensures var ops := [OpenTunnel(host, port)] + [NewPatch(0)] + [Close(0)];
            var w := After(ops + [Install(0)]);
            && |w.patches| == 1 && |w.patches[0].tokens| == 1
            && w.asyncio.open == Patched && !HasDevice(w, 0)
  {
    var ops := [OpenTunnel(host, port)] + [NewPatch(0)] + [Close(0)];
    AfterOne([], OpenTunnel(host, port));
    assert [] + [OpenTunnel(host, port)] == [OpenTunnel(host, port)];
    AfterOne([OpenTunnel(host, port)], NewPatch(0));
    AfterOne([OpenTunnel(host, port)] + [NewPatch(0)], Close(0));
    AfterOne(ops, Install(0));
  }
}
