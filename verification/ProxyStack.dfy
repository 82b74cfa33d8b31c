/** The asyncio monkeypatch shared by all patch objects, and the tunnel state that
    keeps a device alive while patches need it. */
module ProxyStack {
  import opened Options

  datatype Fn = Original | Patched

  type Token = nat

  datatype Entry = Entry(token: Token, host: string, port: nat)

  /** The three attributes of the asyncio module that the helpers read and write, and
      the next token that `object()` will hand out. */
  datatype Asyncio = Asyncio(open: Fn, saved: Option<Fn>, stack: Option<seq<Entry>>, next: Token)

  const FRESH := Asyncio(Original, None, None, 0)

  function Entries(a: Asyncio): seq<Entry> {
    if a.stack.Some? then a.stack.value else []
  }

  function Installed(a: Asyncio, host: string, port: nat): Asyncio {
    var base := if a.stack.None? then Asyncio(Patched, Some(a.open), Some([]), a.next) else a;
    base.(stack := Some(base.stack.value + [Entry(a.next, host, port)]), next := a.next + 1)
  }

  function Without(stack: seq<Entry>, token: Token): (r: seq<Entry>)
    ensures forall e :: e in r <==> e in stack && e.token != token
  {
    if stack == [] then []
    else
      var front := Without(stack[..|stack| - 1], token);
      var last := stack[|stack| - 1];
      assert stack == stack[..|stack| - 1] + [last];
      if last.token == token then front else front + [last]
  }

  function Restored(a: Asyncio, token: Token): Asyncio {
    if a.stack.None? then a
    else
      var left := Without(a.stack.value, token);
      if left != [] then a.(stack := Some(left))
      else Asyncio(if a.saved.Some? then a.saved.value else a.open, None, None, a.next)
  }

  datatype Route = ToOriginal | ToProxy(port: nat) | MissingAttribute

  /** The last entry for a host, if any. */
  function LastFor(stack: seq<Entry>, host: string): Option<Entry> {
    if stack == [] then None
    else if stack[|stack| - 1].host == host then Some(stack[|stack| - 1])
    else LastFor(stack[..|stack| - 1], host)
  }

  /** Where a call of a function value goes: the original dials directly; a patched one
      looks up the saved original first, then the stack when it has a host and a port. */
  function RouteOf(a: Asyncio, fn: Fn, sock: bool, host: Option<string>, port: Option<nat>): Route {
    if fn == Original then ToOriginal
    else if a.saved.None? then MissingAttribute
    else if sock || host.None? || port.None? then ToOriginal
    else
      match LastFor(Entries(a), host.value)
      case Some(entry) => ToProxy(entry.port)
      case None => ToOriginal
  }

  /** The asyncio module as the helper functions see it. */
  class AsyncioModule {
    var openConnection: Fn
    var saved: Option<Fn>
    var stack: Option<seq<Entry>>
    var next: Token

    function View(): Asyncio
      reads this
    {
      Asyncio(openConnection, saved, stack, next)
    }

    constructor ()
      ensures View() == FRESH
    {
      openConnection, saved, stack, next := Original, None, None, 0;
    }

    method Install(host: string, port: nat) returns (token: Token)
      modifies this
      ensures View() == Installed(old(View()), host, port) && token == old(next)
    {
      if stack.None? {
        saved, stack := Some(openConnection), Some([]);
        openConnection := Patched;
      }
      token := next;
      next := next + 1;
      stack := Some(stack.value + [Entry(token, host, port)]);
    }

    method Restore(token: Token)
      modifies this
      ensures View() == Restored(old(View()), token)
    {
      if stack.None? {
        return;
      }
      stack := Some(Without(stack.value, token));
      if stack.value != [] {
        return;
      }
      if saved.Some? {
        openConnection := saved.value;
      }
      saved, stack := None, None;
    }

    /** The patched coroutine scans the stack from its newest entry. */
    method Call(fn: Fn, sock: bool, host: Option<string>, port: Option<nat>) returns (route: Route)
      ensures route == RouteOf(View(), fn, sock, host, port)
    {
      if fn == Original {
        return ToOriginal;
      }
      if saved.None? {
        return MissingAttribute;
      }
      if sock {
        return ToOriginal;
      }
      if host.Some? && port.Some? {
        var entries := if stack.Some? then stack.value else [];
        assert entries[..|entries|] == entries;
        for i := |entries| downto 0
          invariant LastFor(entries, host.value) == LastFor(entries[..i], host.value)
        {
          assert entries[..i + 1][..i] == entries[..i];
          if entries[i].host == host.value {
            return ToProxy(entries[i].port);
          }
        }
      }
      return ToOriginal;
    }
  }

  // ----------------------------------------------------------- tunnel state

  datatype Tunnel = Tunnel(host: string, port: nat, device: bool, retained: nat, closing: bool)

  function Retained(t: Tunnel): Tunnel {
    t.(retained := t.retained + 1)
  }

  function Released(t: Tunnel): Tunnel {
    var left := if t.retained == 0 then 0 else t.retained - 1;
    t.(retained := left, device := t.device && !(left == 0 && t.closing))
  }

  function Closed(t: Tunnel): Tunnel {
    t.(closing := true, device := t.device && t.retained != 0)
  }

  class TunnelState {
    const host: string
    const port: nat
    var device: bool
    var retained: nat
    var closeRequested: bool

    function View(): Tunnel
      reads this
    {
      Tunnel(host, port, device, retained, closeRequested)
    }

    constructor (host: string, port: nat)
      ensures View() == Tunnel(host, port, true, 0, false)
    {
      this.host, this.port := host, port;
      device, retained, closeRequested := true, 0, false;
    }

    method Retain()
      modifies this
      ensures View() == Retained(old(View()))
    {
      retained := retained + 1;
    }

    method Release()
      modifies this
      ensures View() == Released(old(View()))
    {
      retained := if retained == 0 then 0 else retained - 1;
      if retained == 0 && closeRequested {
        device := false;
      }
    }

    method Close()
      modifies this
      ensures View() == Closed(old(View()))
    {
      closeRequested := true;
      if retained == 0 {
        device := false;
      }
    }
  }

  // ---------------------------------------------------------- patch objects

  datatype Patch = Patch(tunnel: nat, tokens: seq<Token>, keepalive: bool)

  /** What one patch object works on: the module, its tunnel, its tokens and its claim. */
  datatype Claim = Claim(asyncio: Asyncio, tunnel: Tunnel, tokens: seq<Token>, keepalive: bool)

  function InstallOn(c: Claim): Claim {
    Claim(Installed(c.asyncio, c.tunnel.host, c.tunnel.port),
          if c.tokens == [] then Retained(c.tunnel) else c.tunnel,
          c.tokens + [c.asyncio.next],
          c.keepalive || c.tokens == [])
  }

  function RestoreOn(c: Claim): Claim {
    if c.tokens == [] then c
    else
      var last := |c.tokens| - 1;
      Claim(Restored(c.asyncio, c.tokens[last]),
            if last == 0 && c.keepalive then Released(c.tunnel) else c.tunnel,
            c.tokens[..last],
            c.keepalive && last != 0)
  }

  function DropOn(c: Claim): Claim
    decreases |c.tokens|
  {
    if c.tokens == [] then c else DropOn(RestoreOn(c))
  }

  /** Dropping gives all tokens back, newest first, and releases the tunnel once. */
  lemma {:induction false} DropRestoresAll(c: Claim)
    ensures DropOn(c).asyncio == RestoredAll(c.asyncio, c.tokens) && DropOn(c).tokens == []
    ensures DropOn(c).tunnel == if c.tokens != [] && c.keepalive then Released(c.tunnel) else c.tunnel
    ensures DropOn(c).keepalive == (c.keepalive && c.tokens == [])
    decreases |c.tokens|
  {
    if c.tokens != [] {
      DropRestoresAll(RestoreOn(c));
    }
  }

  /** One patch object: its tokens, newest last, and its claim on the tunnel. */
  class ProxyPatch {
    const tunnel: TunnelState
    var tokens: seq<Token>
    var keepalive: bool

    constructor (tunnel: TunnelState)
      ensures this.tunnel == tunnel && tokens == [] && !keepalive
    {
      this.tunnel := tunnel;
      tokens, keepalive := [], false;
    }

    function View(asyncio: AsyncioModule): Claim
      reads this, tunnel, asyncio
    {
      Claim(asyncio.View(), tunnel.View(), tokens, keepalive)
    }

    method Install(asyncio: AsyncioModule)
      modifies this, asyncio, tunnel
      ensures View(asyncio) == InstallOn(old(View(asyncio)))
    {
      var token := asyncio.Install(tunnel.host, tunnel.port);
      if tokens == [] {
        tunnel.Retain();
        keepalive := true;
      }
      tokens := tokens + [token];
    }

    method Restore(asyncio: AsyncioModule)
      modifies this, asyncio, tunnel
      ensures View(asyncio) == RestoreOn(old(View(asyncio)))
    {
      if tokens != [] {
        var token := tokens[|tokens| - 1];
        tokens := tokens[..|tokens| - 1];
        asyncio.Restore(token);
        if tokens == [] && keepalive {
          keepalive := false;
          tunnel.Release();
        }
      }
    }

    /** Dropping the object restores until no token is left. */
    method Drop(asyncio: AsyncioModule)
      modifies this, asyncio, tunnel
      ensures View(asyncio) == DropOn(old(View(asyncio))) && tokens == []
    {
      while tokens != []
        invariant DropOn(View(asyncio)) == DropOn(old(View(asyncio)))
        decreases |tokens|
      {
        Restore(asyncio);
      }
    }
  }

  /** Restoring a list of tokens, newest first. */
  function RestoredAll(a: Asyncio, tokens: seq<Token>): Asyncio
    decreases |tokens|
  {
    if tokens == [] then a
    else RestoredAll(Restored(a, tokens[|tokens| - 1]), tokens[..|tokens| - 1])
  }
}
