/**
 Connection tracking (internal/server/stdlib_boundary.go): requests the standard library answered by
 itself are counted by watching each connection's states and whether the handler was entered.
 */
module Boundary {
  type Conn = nat

  // The ConnState callbacks and the middleware's entry, per connection.
  datatype Event =
    | New(conn: Conn) | Active(conn: Conn) | Idle(conn: Conn) | Hijacked(conn: Conn) | Closed(conn: Conn)
    | Handler(conn: Conn)

  // handlerRan per tracked connection, and the counter's total over all labels.
  datatype State = State(entries: map<Conn, bool>, total: nat)

  const INITIAL := State(map[], 0)

  function Next(s: State, e: Event): State {
    match e
    case New(_) => s
    case Active(c) => s.(entries := s.entries[c := false])
    case Idle(_) => s
    case Hijacked(c) => s.(entries := s.entries - {c})
    case Closed(c) =>
      if c in s.entries then State(s.entries - {c}, if s.entries[c] then s.total else s.total + 1) else s
    case Handler(c) => if c in s.entries then s.(entries := s.entries[c := true]) else s
  }

  // The server's fields, changed in place by the callbacks.
  class Tracker {
    var entries: map<Conn, bool>
    var total: nat

    constructor ()
      ensures Value() == INITIAL
    {
      entries, total := map[], 0;
    }

    ghost function Value(): State
      reads this
    {
      State(entries, total)
    }

    method ConnState(e: Event)
      requires !e.Handler?
      modifies this
      ensures Value() == Next(old(Value()), e)
    {
      match e
      case New(_) =>
      case Active(c) =>
        entries := entries[c := false];
      case Idle(_) =>
      case Hijacked(c) =>
        entries := entries - {c};
      case Closed(c) =>
        if c in entries {
          var handlerRan := entries[c];
          entries := entries - {c};
          if !handlerRan {
            total := total + 1;
          }
        }
    }

    method MarkHandlerSeen(c: Conn)
      modifies this
      ensures Value() == Next(old(Value()), Handler(c))
    {
      if c in entries {
        entries := entries[c := true];
      }
    }
  }

  function After(h: seq<Event>): State {
    if h == [] then INITIAL else Next(After(h[..|h| - 1]), h[|h| - 1])
  }

  // --- the same, told by looking back over the history ---

  predicate Ends(e: Event, c: Conn) {
    e == Closed(c) || e == Hijacked(c)
  }

  // The connection's latest round began at event i and is still open.
  ghost predicate OpenRound(h: seq<Event>, c: Conn, i: nat) {
    i < |h| && h[i] == Active(c) && forall j :: i < j < |h| ==> h[j] != Active(c) && !Ends(h[j], c)
  }

  ghost predicate HandlerEntered(h: seq<Event>, c: Conn, i: nat) {
    exists j :: i < j < |h| && h[j] == Handler(c)
  }

  ghost predicate Tracked(h: seq<Event>, c: Conn) {
    exists i :: OpenRound(h, c, i)
  }

  // Event k closes a connection whose latest round never reached the handler.
  ghost predicate Unserved(h: seq<Event>, k: nat) {
    k < |h| && h[k].Closed? && exists i :: OpenRound(h[..k], h[k].conn, i) && !HandlerEntered(h[..k], h[k].conn, i)
  }

  ghost function UnservedCloses(h: seq<Event>): set<nat> {
    set k: nat | k < |h| && Unserved(h, k)
  }

  lemma RoundUnique(h: seq<Event>, c: Conn, i: nat, j: nat)
    requires OpenRound(h, c, i) && OpenRound(h, c, j)
    ensures i == j
  {
  }

  // One more event, seen from the history.
  lemma RoundExtends(h: seq<Event>, e: Event, c: Conn, i: nat)
    ensures OpenRound(h + [e], c, i) <==>
              (i == |h| && e == Active(c)) || (OpenRound(h, c, i) && e != Active(c) && !Ends(e, c))
    ensures i < |h| ==> (HandlerEntered(h + [e], c, i) <==> HandlerEntered(h, c, i) || e == Handler(c))
    ensures !HandlerEntered(h + [e], c, |h|)
  {
    var n := h + [e];
    if OpenRound(h, c, i) && e != Active(c) && !Ends(e, c) {
      forall j | i < j < |n| ensures n[j] != Active(c) && !Ends(n[j], c) {
        if j < |h| { assert n[j] == h[j]; }
      }
    }
    if OpenRound(n, c, i) && i < |h| {
      assert n[|h|] == e;
      forall j | i < j < |h| ensures h[j] != Active(c) && !Ends(h[j], c) { assert n[j] == h[j]; }
    }
    if i < |h| {
      if HandlerEntered(h, c, i) {
        var j :| i < j < |h| && h[j] == Handler(c);
        assert n[j] == Handler(c);
      }
      if e == Handler(c) { assert n[|h|] == Handler(c); }
    }
  }

  lemma UnservedExtends(h: seq<Event>, e: Event)
    ensures UnservedCloses(h + [e]) == UnservedCloses(h) + (if Unserved(h + [e], |h|) then {|h|} else {})
    ensures |h| !in UnservedCloses(h)
  {
    var n := h + [e];
    forall k: nat | k < |h| ensures Unserved(n, k) == Unserved(h, k) {
      assert n[..k] == h[..k] && n[k] == h[k];
    }
  }

  // The tracker's state says what the history says.
  ghost predicate Faithful(h: seq<Event>, s: State) {
    && (forall c :: c in s.entries <==> Tracked(h, c))
    && (forall c, i :: OpenRound(h, c, i) ==> c in s.entries && s.entries[c] == HandlerEntered(h, c, i))
    && s.total == |UnservedCloses(h)|
  }

  lemma EntryExtends(h: seq<Event>, s: State, e: Event, c: Conn)
    requires Faithful(h, s)
    ensures c in Next(s, e).entries <==> Tracked(h + [e], c)
    ensures forall i :: OpenRound(h + [e], c, i) ==>
              c in Next(s, e).entries && Next(s, e).entries[c] == HandlerEntered(h + [e], c, i)
  {
    forall i
      ensures OpenRound(h + [e], c, i) <==>
                (i == |h| && e == Active(c)) || (0 <= i && OpenRound(h, c, i) && e != Active(c) && !Ends(e, c))
    {
      if i >= 0 { RoundExtends(h, e, c, i); }
    }
    if e == Active(c) {
      assert OpenRound(h + [e], c, |h|);
    } else if Tracked(h, c) {
      var i :| OpenRound(h, c, i);
      assert OpenRound(h + [e], c, i) <==> !Ends(e, c);
    }
    forall i | OpenRound(h + [e], c, i)
      ensures c in Next(s, e).entries && Next(s, e).entries[c] == HandlerEntered(h + [e], c, i)
    {
      RoundExtends(h, e, c, i);
    }
  }

  lemma TotalExtends(h: seq<Event>, s: State, e: Event)
    requires Faithful(h, s)
    ensures Next(s, e).total == |UnservedCloses(h + [e])|
  {
    var n := h + [e];
    UnservedExtends(h, e);
    assert n[..|h|] == h && n[|h|] == e;
    if e.Closed? && Tracked(h, e.conn) {
      var i :| OpenRound(h, e.conn, i);
      forall j | OpenRound(h, e.conn, j) ensures j == i { RoundUnique(h, e.conn, i, j); }
      assert s.entries[e.conn] == HandlerEntered(h, e.conn, i);
    }
  }

  // For every event sequence over any number of connections: the counter is the number of closes
  // whose latest round had no handler entry, and the map holds exactly the connections with an
  // active event and no later close or hijack.
  lemma {:induction false} TrackerIsFaithful(h: seq<Event>)
    ensures Faithful(h, After(h))
    decreases |h|
  {
    if h == [] {
      assert UnservedCloses(h) == {};
    } else {
      var before, e := h[..|h| - 1], h[|h| - 1];
      assert h == before + [e];
      TrackerIsFaithful(before);
      forall c
        ensures c in After(h).entries <==> Tracked(h, c)
        ensures forall i :: OpenRound(h, c, i) ==>
                c in After(h).entries && After(h).entries[c] == HandlerEntered(h, c, i)
      {
        EntryExtends(before, After(before), e, c);
      }
      TotalExtends(before, After(before), e);
    }
  }
}
