/** Session-ticket rotation: `find_ticket_for_encryption` and `update_tickets` of `src/ssl.c`.

    Times are seconds as mathematical integers (no 64-bit overflow). Of a ticket's 16-octet
    name only the first octet takes part in the rotation; the rest of the name and the key
    are one opaque `secret`. Fresh randomness is a parameter. */
module Tickets {
  import opened Basics
  import opened Options

  datatype Ticket = Ticket(name: Octet, secret: nat, notBefore: nat, notAfter: int)

  const ACTIVATION_DELAY: nat := 60

  /** The newest ticket that has become active, if it has not expired. */
  function FindForEncryption(ts: seq<Ticket>, now: nat): Option<Ticket> {
    if ts == [] then None
    else if ts[0].notBefore <= now then
      if now <= ts[0].notAfter then Some(ts[0]) else None
    else FindForEncryption(ts[1..], now)
  }

  /** Ticket i is the first that has become active. */
  predicate FirstActive(ts: seq<Ticket>, now: nat, i: nat) {
    i < |ts| && ts[i].notBefore <= now && forall j :: 0 <= j < i ==> now < ts[j].notBefore
  }

  /** The linear search itself: the first active ticket if it has not expired, and none if it
      has or if there is no active one. */
  method FindTicket(ts: seq<Ticket>, now: nat) returns (r: Option<Ticket>)
    ensures r == FindForEncryption(ts, now)
    ensures r.Some? ==> exists i: nat :: FirstActive(ts, now, i) && r.value == ts[i] && now <= ts[i].notAfter
    ensures r.None? ==> (forall i :: 0 <= i < |ts| ==> now < ts[i].notBefore)
                        || exists i: nat :: FirstActive(ts, now, i) && ts[i].notAfter < now
  {
    var i := 0;
    while i != |ts|
      invariant 0 <= i <= |ts|
      invariant FindForEncryption(ts, now) == FindForEncryption(ts[i..], now)
      invariant forall j :: 0 <= j < i ==> now < ts[j].notBefore
    {
      if ts[i].notBefore <= now {
        assert FirstActive(ts, now, i);
        return if now <= ts[i].notAfter then Some(ts[i]) else None;
      }
      assert ts[i..][1..] == ts[i + 1..];
      i := i + 1;
    }
    r := None;
  }

  // ---------------------------------------------------------------- expiry

  /** Drops expired tickets from the old end, up to the first one that is still good. */
  function Expire(ts: seq<Ticket>, now: nat): (r: seq<Ticket>)
    ensures r <= ts
    ensures r != [] ==> now <= r[|r| - 1].notAfter
    ensures forall i :: |r| <= i < |ts| ==> ts[i].notAfter < now
  {
    if ts == [] || now <= ts[|ts| - 1].notAfter then ts else Expire(ts[..|ts| - 1], now)
  }

  // ---------------------------------------------------------------- colliding names

  predicate NamedLater(ts: seq<Ticket>, i: nat)
    requires i < |ts|
  {
    exists j :: i < j < |ts| && ts[j].name == ts[i].name
  }

  /** Keeps the last entry of every group of equal names, in the original order. */
  function Decollide(ts: seq<Ticket>): seq<Ticket> {
    if ts == [] then []
    else if NamedLater(ts, 0) then Decollide(ts[1..])
    else [ts[0]] + Decollide(ts[1..])
  }

  predicate DistinctNames(ts: seq<Ticket>) {
    forall i, j :: 0 <= i < j < |ts| ==> ts[i].name != ts[j].name
  }

  function Names(ts: seq<Ticket>): set<Octet> {
    set i | 0 <= i < |ts| :: ts[i].name
  }

  /** A value survives exactly when it is the last holder of its name, and names are lost
      for no one. */
  lemma {:induction false} DecollideSpec(ts: seq<Ticket>)
    ensures DistinctNames(Decollide(ts))
    ensures forall x :: x in Decollide(ts) <==> exists i :: 0 <= i < |ts| && ts[i] == x && !NamedLater(ts, i)
    ensures Names(Decollide(ts)) == Names(ts)
  {
    if ts == [] {
    } else {
      var rest := ts[1..];
      DecollideSpec(rest);
      assert forall i :: 0 <= i < |rest| ==> rest[i] == ts[i + 1] && (NamedLater(rest, i) <==> NamedLater(ts, i + 1)) by {
        forall i | 0 <= i < |rest| ensures NamedLater(rest, i) <==> NamedLater(ts, i + 1) {
          NamedLaterTail(ts, i);
        }
      }
      var d := Decollide(ts);
      if !NamedLater(ts, 0) {
        forall x | x in Decollide(rest) ensures x.name != ts[0].name {
          var i :| 0 <= i < |rest| && rest[i] == x && !NamedLater(rest, i);
          assert ts[i + 1] == x;
        }
      }
      forall x ensures x in d <==> exists i :: 0 <= i < |ts| && ts[i] == x && !NamedLater(ts, i) {
        if x in d && !(x == ts[0] && !NamedLater(ts, 0)) {
          var i :| 0 <= i < |rest| && rest[i] == x && !NamedLater(rest, i);
          assert ts[i + 1] == x && !NamedLater(ts, i + 1);
        }
        if i :| 0 <= i < |ts| && ts[i] == x && !NamedLater(ts, i) {
          if i != 0 {
            assert rest[i - 1] == x && !NamedLater(rest, i - 1);
          }
        }
      }
      NamesStep(ts);
    }
  }

  /** ... in the original order: the survivors stand at increasing places of the list. */
  lemma {:induction false} DecollideOrder(ts: seq<Ticket>) returns (at: seq<nat>)
    ensures |at| == |Decollide(ts)|
    ensures forall k :: 0 <= k < |at| ==> at[k] < |ts| && Decollide(ts)[k] == ts[at[k]] && !NamedLater(ts, at[k])
    ensures forall j, k :: 0 <= j < k < |at| ==> at[j] < at[k]
  {
    at := [];
    if ts == [] {
    } else {
      var rest := ts[1..];
      var later := DecollideOrder(rest);
      forall k | 0 <= k < |later|
        ensures !NamedLater(ts, later[k] + 1)
      {
        NamedLaterTail(ts, later[k]);
      }
      var shifted := seq(|later|, k requires 0 <= k < |later| => later[k] + 1);
      at := if NamedLater(ts, 0) then shifted else [0] + shifted;
    }
  }

  lemma NamedLaterTail(ts: seq<Ticket>, i: nat)
    requires i + 1 < |ts|
    ensures NamedLater(ts[1..], i) <==> NamedLater(ts, i + 1)
  {
    var rest := ts[1..];
    if NamedLater(ts, i + 1) {
      var j :| i + 1 < j < |ts| && ts[j].name == ts[i + 1].name;
      assert rest[j - 1].name == rest[i].name;
    }
  }

  lemma NamesStep(ts: seq<Ticket>)
    requires ts != [] && Names(Decollide(ts[1..])) == Names(ts[1..])
    ensures Names(Decollide(ts)) == Names(ts)
  {
    NamesCons(ts[0], ts[1..]);
    NamesCons(ts[0], Decollide(ts[1..]));
    assert ts == [ts[0]] + ts[1..];
    if NamedLater(ts, 0) {
      var j :| 0 < j < |ts| && ts[j].name == ts[0].name;
      assert ts[1..][j - 1].name == ts[0].name;
    }
  }

  lemma NamesCons(x: Ticket, ts: seq<Ticket>)
    ensures Names([x] + ts) == {x.name} + Names(ts)
  {
    var all := [x] + ts;
    assert all[0].name == x.name;
    forall i | 0 <= i < |ts| ensures ts[i].name in Names(all) {
      assert all[i + 1] == ts[i];
    }
  }

  /** A list without collisions is left alone. */
  lemma {:induction false} DecollideIdle(ts: seq<Ticket>)
    ensures Decollide(ts) == ts <==> DistinctNames(ts)
  {
    DecollideSpec(ts);
    DecollideIdle'(ts);
  }

  lemma {:induction false} DecollideIdle'(ts: seq<Ticket>)
    ensures DistinctNames(ts) ==> Decollide(ts) == ts
  {
    if ts != [] && DistinctNames(ts) {
      DecollideIdle'(ts[1..]);
    }
  }

  // ---------------------------------------------------------------- a fresh name

  /** The octet reached from `start` after k increments. */
  function Nth(start: Octet, k: nat): Octet {
    (start + k) % 256
  }

  predicate Tried(used: set<Octet>, start: Octet, n: nat) {
    forall k :: 0 <= k < n ==> Nth(start, k) in used
  }

  ghost predicate HasFree(used: set<Octet>) {
    exists k :: 0 <= k < 256 && Nth(0, k) !in used
  }

  /** The first octet from `start` upwards, wrapping, that is not used. */
  function FreshName(used: set<Octet>, start: Octet, tried: nat): (n: Octet)
    requires HasFree(used) && tried <= 256 && Tried(used, start, tried)
    ensures n !in used
    decreases 256 - tried
  {
    NotAllTried(used, start, tried);
    if Nth(start, tried) in used then FreshName(used, start, tried + 1) else Nth(start, tried)
  }

  lemma NotAllTried(used: set<Octet>, start: Octet, tried: nat)
    requires HasFree(used) && Tried(used, start, tried)
    ensures tried < 256
  {
    var k :| 0 <= k < 256 && Nth(0, k) !in used;
    var d := (k + 256 - start) % 256;
    assert Nth(start, d) == Nth(0, k);
  }

  lemma FreshStep(used: set<Octet>, start: Octet, tried: nat)
    requires HasFree(used) && Tried(used, start, tried)
    ensures tried < 256 && Nth(start, tried + 1) == (Nth(start, tried) + 1) % 256
    ensures Nth(start, tried) !in used ==> FreshName(used, start, tried) == Nth(start, tried)
    ensures Nth(start, tried) in used ==>
              Tried(used, start, tried + 1) && FreshName(used, start, tried) == FreshName(used, start, tried + 1)
  {
    NotAllTried(used, start, tried);
  }

  function Below(n: nat): (s: set<Octet>)
    requires n <= 256
    ensures |s| == n && forall x: Octet :: x in s <==> x < n
  {
    if n == 0 then {}
    else
      var last: Octet := n - 1;
      Below(n - 1) + {last}
  }

  /** Fewer than 256 names leave one free. */
  lemma FreeOctet(used: set<Octet>)
    requires |used| < 256
    ensures HasFree(used)
  {
    var x := FreeBelow(used, 256);
    assert Nth(0, x) == x;
  }

  lemma FreeBelow(used: set<Octet>, n: nat) returns (x: Octet)
    requires n <= 256 && |used| < n
    ensures x !in used
  {
    var all := Below(n);
    assert used == (all * used) + (used - all) && all == (all * used) + (all - used);
    assert |all| == |all * used| + |all - used|;
    x :| x in all - used;
  }

  lemma {:induction false} NamesCount(ts: seq<Ticket>)
    requires DistinctNames(ts)
    ensures |Names(ts)| == |ts|
  {
    if ts == [] {
    } else {
      NamesCount(ts[1..]);
      NamesCons(ts[0], ts[1..]);
      assert ts == [ts[0]] + ts[1..];
    }
  }

  // ---------------------------------------------------------------- the whole update

  /** What randomness supplies for one new ticket. */
  datatype Draw = Draw(name: Octet, secret: nat)

  predicate NeedsTicket(ts: seq<Ticket>, lifetime: nat, now: nat) {
    var valid := FindForEncryption(ts, now);
    valid.None? || ts == [] || ts[0].notBefore + lifetime / 4 < now
  }

  function NewTicket(ts: seq<Ticket>, lifetime: nat, now: nat, draw: Draw): Ticket
    requires HasFree(Names(ts))
  {
    var notBefore := if FindForEncryption(ts, now).Some? then now + ACTIVATION_DELAY else now;
    Ticket(FreshName(Names(ts), draw.name, 0), draw.secret, notBefore, notBefore + lifetime - 1)
  }

  lemma KeptLeavesName(ts: seq<Ticket>)
    requires |Decollide(ts)| < 256
    ensures HasFree(Names(Decollide(ts)))
  {
    DecollideSpec(ts);
    NamesCount(Decollide(ts));
    FreeOctet(Names(Decollide(ts)));
  }

  function Rotated(kept: seq<Ticket>, lifetime: nat, now: nat, draw: Draw): seq<Ticket>
    requires HasFree(Names(kept))
  {
    if NeedsTicket(kept, lifetime, now) then [NewTicket(kept, lifetime, now, draw)] + kept else kept
  }

  /** The list after one call, or None when the call aborts the process. */
  function Updated(ts: seq<Ticket>, lifetime: nat, now: nat, draw: Draw): Option<seq<Ticket>> {
    var kept := Decollide(Expire(ts, now));
    if 256 <= |kept| then None
    else
      KeptLeavesName(Expire(ts, now));
      Some(Rotated(kept, lifetime, now, draw))
  }

  /** Whether the call reports a change; losing colliding entries is none. */
  predicate Altered(ts: seq<Ticket>, lifetime: nat, now: nat) {
    var alive := Expire(ts, now);
    alive != ts || NeedsTicket(Decollide(alive), lifetime, now)
  }

  class Store {
    var tickets: seq<Ticket>

    constructor ()
      ensures tickets == []
    {
      tickets := [];
    }

    method RemoveExpired(now: nat) returns (altered: bool)
      modifies this
      ensures tickets == Expire(old(tickets), now)
      ensures altered <==> tickets != old(tickets)
    {
      altered := false;
      while |tickets| != 0
        invariant Expire(old(tickets), now) == Expire(tickets, now)
        invariant tickets <= old(tickets)
        invariant altered <==> tickets != old(tickets)
        decreases |tickets|
      {
        var oldest := tickets[|tickets| - 1];
        if now <= oldest.notAfter {
          break;
        }
        tickets := tickets[..|tickets| - 1];
        altered := true;
      }
    }

    method FindCollision(offending: nat) returns (i: nat)
      requires offending < |tickets|
      ensures offending < i <= |tickets|
      ensures i < |tickets| <==> NamedLater(tickets, offending)
    {
      i := offending + 1;
      while i < |tickets|
        invariant offending < i <= |tickets|
        invariant forall j :: offending < j < i ==> tickets[j].name != tickets[offending].name
      {
        if tickets[i].name == tickets[offending].name {
          return;
        }
        i := i + 1;
      }
    }

    /** Removal in place of every entry whose name occurs again further down. */
    method RemoveCollisions()
      modifies this
      ensures tickets == Decollide(old(tickets))
    {
      if |tickets| > 1 {
        var offending := 0;
        while true
          invariant 0 <= offending < |tickets|
          invariant tickets[..offending] + Decollide(tickets[offending..]) == Decollide(old(tickets))
          decreases |tickets| - offending
        {
          var i := FindCollision(offending);
          Removing(tickets, offending);
          if i < |tickets| {
            tickets := tickets[..offending] + tickets[offending + 1..];
          } else {
            offending := offending + 1;
          }
          if !(offending < |tickets| - 1) {
            break;
          }
        }
        assert offending == |tickets| || offending == |tickets| - 1;
        assert tickets[..offending] + tickets[offending..] == tickets;
        assert Decollide(tickets[offending..]) == tickets[offending..];
      } else {
        assert Decollide(tickets) == tickets;
      }
    }

    method NameTaken(name: Octet) returns (taken: bool)
      ensures taken <==> name in Names(tickets)
    {
      var i := 0;
      while i < |tickets|
        invariant 0 <= i <= |tickets|
        invariant forall j :: 0 <= j < i ==> tickets[j].name != name
      {
        if tickets[i].name == name {
          return true;
        }
        i := i + 1;
      }
      return false;
    }

    method AvoidCollision(start: Octet) returns (name: Octet)
      requires HasFree(Names(tickets))
      ensures name == FreshName(Names(tickets), start, 0)
    {
      name := start;
      ghost var used, tried: nat := Names(tickets), 0;
      while true
        invariant tried <= 256 && Tried(used, start, tried) && name == Nth(start, tried)
        invariant FreshName(used, start, 0) == FreshName(used, start, tried)
        decreases 256 - tried
      {
        FreshStep(used, start, tried);
        var taken := NameTaken(name);
        if !taken {
          return;
        }
        name := (name + 1) % 256;
        tried := tried + 1;
      }
    }

    method AddIfDue(lifetime: nat, now: nat, draw: Draw) returns (added: bool)
      requires HasFree(Names(tickets))
      modifies this
      ensures tickets == Rotated(old(tickets), lifetime, now, draw)
      ensures added <==> NeedsTicket(old(tickets), lifetime, now)
    {
      added := false;
      var valid := FindTicket(tickets, now);
      if valid.None? || tickets[0].notBefore + lifetime / 4 < now {
        var notBefore := if valid.Some? then now + ACTIVATION_DELAY else now;
        var name := AvoidCollision(draw.name);
        tickets := [Ticket(name, draw.secret, notBefore, notBefore + lifetime - 1)] + tickets;
        added := true;
      }
    }

    /** `update_tickets`: expire, drop collisions, add a ticket if one is due. An unaltered
        list may still have lost colliding entries. */
    method UpdateTickets(lifetime: nat, now: nat, draw: Draw) returns (altered: bool, fatal: bool)
      modifies this
      ensures fatal <==> Updated(old(tickets), lifetime, now, draw).None?
      ensures !fatal ==> Updated(old(tickets), lifetime, now, draw) == Some(tickets)
      ensures !fatal ==> (altered <==> Altered(old(tickets), lifetime, now))
      ensures !fatal && !altered ==> tickets == Decollide(old(tickets))
    {
      altered := RemoveExpired(now);
      ghost var alive := tickets;
      RemoveCollisions();
      if |tickets| >= 256 {
        return altered, true;
      }
      KeptLeavesName(alive);
      fatal := false;
      var added := AddIfDue(lifetime, now, draw);
      altered := altered || added;
    }
  }

  lemma Removing(ts: seq<Ticket>, k: nat)
    requires k < |ts|
    ensures NamedLater(ts, k) <==> NamedLater(ts[k..], 0)
    ensures NamedLater(ts, k) ==>
              ts[..k] + Decollide(ts[k..]) == ts[..k] + Decollide((ts[..k] + ts[k + 1..])[k..])
    ensures !NamedLater(ts, k) ==> ts[..k] + Decollide(ts[k..]) == ts[..k + 1] + Decollide(ts[k + 1..])
  {
    assert ts[k..][1..] == ts[k + 1..] == (ts[..k] + ts[k + 1..])[k..];
    assert ts[..k] + [ts[k]] == ts[..k + 1];
    if NamedLater(ts, k) {
      var j :| k < j < |ts| && ts[j].name == ts[k].name;
      assert ts[k..][j - k].name == ts[k..][0].name;
    }
    if NamedLater(ts[k..], 0) {
      var j :| 0 < j < |ts[k..]| && ts[k..][j].name == ts[k..][0].name;
      assert ts[k + j].name == ts[k].name;
    }
  }

  // ---------------------------------------------------------------- any list

  /** The call aborts exactly when all 256 names are taken by tickets that survive expiry. */
  lemma AbortsIff(ts: seq<Ticket>, lifetime: nat, now: nat, draw: Draw)
    ensures Updated(ts, lifetime, now, draw).None? <==> |Names(Expire(ts, now))| == 256
  {
    var alive := Expire(ts, now);
    DecollideSpec(alive);
    NamesCount(Decollide(alive));
    NamesBound(Names(alive), 256);
  }

  lemma NamesBound(used: set<Octet>, n: nat)
    requires n == 256
    ensures |used| <= n
  {
    var all := Below(n);
    assert used <= all;
    assert all == used + (all - used);
    assert |all| == |used| + |all - used|;
  }

  /** After any call, from any list, a ticket can encrypt at `now`; the one exception is a
      zero lifetime with nothing valid to fall back on. */
  lemma EncryptionAvailable(ts: seq<Ticket>, lifetime: nat, now: nat, draw: Draw)
    requires Updated(ts, lifetime, now, draw).Some?
    ensures FindForEncryption(Updated(ts, lifetime, now, draw).value, now).Some? <==>
            1 <= lifetime || FindForEncryption(Decollide(Expire(ts, now)), now).Some?
  {
    var kept := Decollide(Expire(ts, now));
    var r := Updated(ts, lifetime, now, draw).value;
    if NeedsTicket(kept, lifetime, now) {
      assert r[1..] == kept;
    }
  }

  /** After any call all first octets are distinct. */
  lemma UpdatedDistinct(ts: seq<Ticket>, lifetime: nat, now: nat, draw: Draw)
    requires Updated(ts, lifetime, now, draw).Some?
    ensures DistinctNames(Updated(ts, lifetime, now, draw).value)
  {
    var kept := Decollide(Expire(ts, now));
    DecollideSpec(Expire(ts, now));
    var r := Updated(ts, lifetime, now, draw).value;
    if NeedsTicket(kept, lifetime, now) {
      assert forall i :: 0 <= i < |kept| ==> kept[i].name in Names(kept);
    }
  }
}
