/**
 * The world between a client and its peer: connections as byte streams, and an environment that
 * decides the fate of every dial and every write.
 */
module Network {
  import opened Bytes

  /**
   * The environment's choices at one tick. A dial looks at `up`. A write looks at the rest: whether the
   * client is told that it was sent, whether the peer receives and serves it, how many bytes of the reply
   * ever reach the client, and a failure that somebody asks the peer to produce just before the request.
   */
  datatype Fate = Fate(up: bool, sent: bool, served: bool, keep: nat, inject: Option<uint16>)

  type Plan = nat -> Fate

  /** One Write call: on which connection, at which tick, and what was written. */
  datatype Sending = Sending(conn: nat, tick: nat, frame: seq<byte>)

  /**
   * Every connection gets its own number. `open` holds the unread bytes of the connections not yet closed,
   * `dialed` counts the successful dials, `clock` the choices consumed, and `log` all that was written.
   */
  datatype Links = Links(open: map<nat, seq<byte>>, dialed: nat, clock: nat, log: seq<Sending>)

  function DialResult(plan: Plan, l: Links): Option<nat> {
    if plan(l.clock).up then Some(l.dialed) else None
  }

  function AfterDial(plan: Plan, l: Links): Links {
    if plan(l.clock).up
    then l.(open := l.open[l.dialed := []], dialed := l.dialed + 1, clock := l.clock + 1)
    else l.(clock := l.clock + 1)
  }

  function AfterClose(l: Links, h: nat): Links {
    l.(open := l.open - {h})
  }

  /** The reply as far as it gets, given the environment's choice. */
  function Delivered(f: Fate, reply: seq<byte>): seq<byte> {
    if f.keep < |reply| then reply[..f.keep] else reply
  }

  function AfterWrite(plan: Plan, l: Links, h: nat, frame: seq<byte>, reply: seq<byte>): Links
    requires h in l.open
  {
    l.(open := l.open[h := l.open[h] + Delivered(plan(l.clock), reply)],
       clock := l.clock + 1,
       log := l.log + [Sending(h, l.clock, frame)])
  }

  function Unread(l: Links, h: nat, rest: seq<byte>): Links {
    l.(open := l.open[h := rest])
  }

  lemma UnreadTwice(l: Links, h: nat, a: seq<byte>, b: seq<byte>)
    ensures Unread(Unread(l, h, a), h, b) == Unread(l, h, b)
    ensures Unread(l, h, a).open[h] == a
  {
    assert l.open[h := a][h := b] == l.open[h := b];
  }

  /** The client holds at most one connection, and its stream holds nothing from an earlier exchange. */
  predicate Clean(l: Links, conn: Option<nat>) {
    && (forall h :: h in l.open ==> h < l.dialed)
    && l.open == (match conn case None => map[] case Some(h) => map[h := []])
  }

  /** The links of a client that holds connection conn, whatever is left to read on it. */
  predicate Holding(l: Links, conn: Option<nat>) {
    && (forall h :: h in l.open ==> h < l.dialed)
    && l.open.Keys == (match conn case None => {} case Some(h) => {h})
  }

  class Wire {
    const plan: Plan
    var links: Links

    constructor (plan: Plan)
      ensures this.plan == plan && links == Links(map[], 0, 0, [])
    {
      this.plan := plan;
      links := Links(map[], 0, 0, []);
    }

    method Dial() returns (h: Option<nat>)
      modifies this
      ensures h == DialResult(plan, old(links)) && links == AfterDial(plan, old(links))
    {
      h := None;
      if plan(links.clock).up {
        h := Some(links.dialed);
        links := links.(open := links.open[links.dialed := []], dialed := links.dialed + 1);
      }
      links := links.(clock := links.clock + 1);
    }

    method Close(h: nat)
      modifies this
      ensures links == AfterClose(old(links), h)
    {
      links := links.(open := links.open - {h});
    }

    /** One Write call, and as much of the peer's reply as the environment lets through. */
    method Write(h: nat, frame: seq<byte>, reply: seq<byte>) returns (sent: bool)
      requires h in links.open
      modifies this
      ensures sent == plan(old(links).clock).sent
      ensures links == AfterWrite(plan, old(links), h, frame, reply)
    {
      var f := plan(links.clock);
      links := links.(open := links.open[h := links.open[h] + Delivered(f, reply)],
                      clock := links.clock + 1,
                      log := links.log + [Sending(h, links.clock, frame)]);
      sent := f.sent;
    }

    /** One Read call: some of what is there, as many bytes as it pleases, or an error when nothing is. */
    method Read(h: nat, buf: array<byte>, from: nat) returns (n: nat, ok: bool)
      requires h in links.open && from < buf.Length
      modifies this, buf
      ensures ok <==> old(links.open[h]) != []
      ensures !ok ==> n == 0
      ensures ok ==> 1 <= n <= |old(links.open[h])| && from + n <= buf.Length
      ensures buf[..] == old(buf[..from]) + old(links.open[h])[..n] + old(buf[from..])[n..]
      ensures links == Unread(old(links), h, old(links.open[h])[n..])
    {
      var unread := links.open[h];
      if unread == [] {
        n, ok := 0, false;
      } else {
        n :| 1 <= n <= |unread| && from + n <= buf.Length;
        ok := true;
      }
      forall i | from <= i < from + n {
        buf[i] := unread[i - from];
      }
      links := Unread(links, h, unread[n..]);
    }

    /** Reads until the buffer is full: what arrives does not depend on how it was cut into chunks. */
    method ReadFull(h: nat, buf: array<byte>) returns (total: nat, ok: bool)
      requires h in links.open
      modifies this, buf
      ensures ok <==> |old(links.open[h])| >= buf.Length
      ensures ok ==> total == buf.Length && buf[..] == old(links.open[h])[..buf.Length]
      ensures !ok ==> total == |old(links.open[h])|
      ensures links == Unread(old(links), h, Rest(old(links.open[h]), buf.Length))
    {
      total := 0;
      ok := true;
      ghost var unread := links.open[h];
      assert links == Unread(links, h, unread[0..]);
      while total < buf.Length && ok
        invariant total <= buf.Length && total <= |unread|
        invariant buf[..total] == unread[..total]
        invariant links == Unread(old(links), h, unread[total..])
        invariant !ok ==> total == |unread| < buf.Length
        decreases buf.Length - total, ok
      {
        var n;
        n, ok := Read(h, buf, total);
        total := total + n;
      }
    }
  }
}
