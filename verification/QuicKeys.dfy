/** The per-thread QUIC key cache of `src/ssl.c`: one updater that replaces or rotates the ticket
    list under a write lock and bumps a generation counter afterwards, and any number of workers
    that rebuild their keys under the read lock when the counter has moved.

    A step is what one thread does between two points where others can interfere: the
    updater's critical section, its increment, a worker's read of the counter, its critical
    section, and its store of the value it had read. The counter does not wrap. */
module QuicKeys {
  import opened Basics
  import opened Options
  import opened Tickets

  datatype Keyset = Keyset(name: Octet, secret: nat)

  function KeysOf(ts: seq<Ticket>): (keys: seq<Keyset>)
    ensures |keys| == |ts|
    ensures forall i :: 0 <= i < |ts| ==> keys[i] == Keyset(ts[i].name, ts[i].secret)
  {
    seq(|ts|, i requires 0 <= i < |ts| => Keyset(ts[i].name, ts[i].secret))
  }

  // ---------------------------------------------------------------- state

  datatype Updater = Idle | Unbumped

  /** Where a worker is inside `update_quic_keys`. */
  datatype Phase = AtLoop | Stale(seen: nat) | Rebuilt(seen: nat)

  /** `generation` is None until the first rebuild, like the initial UINT_MAX. */
  datatype Worker = Worker(phase: Phase, generation: Option<nat>, keys: seq<Keyset>)

  /** `lists` records every list ever installed, the current one last. */
  datatype State = State(
    lists: seq<seq<Ticket>>, generation: nat, updater: Updater, workers: map<nat, Worker>, aborted: bool)

  const INIT: State := State([], 0, Idle, map[], false)

  /** A list comes from a file, from memcached or Redis, or from the internal updater. */
  datatype Event =
    | Load(ts: seq<Ticket>)                           // load_tickets_file, parsed and sorted
    | Fetch(ts: seq<Ticket>, now: nat, draw: Draw)    // ticket_memcached_update_tickets, ticket_redis_update_tickets
    | Update(now: nat, draw: Draw)                    // ticket_internal_updater
    | Bump
    | Start(w: nat)
    | Check(w: nat)
    | Rebuild(w: nat)
    | Remember(w: nat)

  function Current(s: State): seq<Ticket> {
    if s.lists == [] then [] else s.lists[|s.lists| - 1]
  }

  predicate Enabled(s: State, e: Event) {
    !s.aborted &&
    match e
    case Load(_) => s.updater.Idle?
    case Fetch(_, _, _) => s.updater.Idle?
    case Update(_, _) => s.updater.Idle?
    case Bump => s.updater.Unbumped?
    case Start(w) => 1 <= s.generation && w !in s.workers
    case Check(w) => w in s.workers && s.workers[w].phase.AtLoop?
    case Rebuild(w) => w in s.workers && s.workers[w].phase.Stale?
    case Remember(w) => w in s.workers && s.workers[w].phase.Rebuilt?
  }

  /** `register_session_tickets` up to its increment, with its assertion. */
  function Register(s: State, ts: seq<Ticket>): State {
    if ts == [] then s.(aborted := true) else s.(lists := s.lists + [ts], updater := Unbumped)
  }

  /** A shared list that needs a change is written back and fetched again, not registered. */
  function Apply(l: nat, s: State, e: Event): State
    requires Enabled(s, e)
  {
    match e
    case Load(ts) => Register(s, ts)
    case Fetch(ts, now, draw) =>
      var r := Updated(ts, l, now, draw);
      if r.None? then s.(aborted := true) else if Altered(ts, l, now) then s else Register(s, r.value)
    case Update(now, draw) =>
      var r := Updated(Current(s), l, now, draw);
      if r.None? then s.(aborted := true) else Register(s, r.value)
    case Bump => s.(generation := s.generation + 1, updater := Idle)
    case Start(w) => s.(workers := s.workers[w := Worker(AtLoop, None, [])])
    case Check(w) =>
      var me := s.workers[w];
      if me.generation == Some(s.generation) then s
      else s.(workers := s.workers[w := me.(phase := Stale(s.generation), keys := [])])
    case Rebuild(w) =>
      var me := s.workers[w];
      if Current(s) == [] then s.(aborted := true)
      else s.(workers := s.workers[w := me.(phase := Rebuilt(me.phase.seen), keys := KeysOf(Current(s)))])
    case Remember(w) =>
      var me := s.workers[w];
      s.(workers := s.workers[w := me.(phase := AtLoop, generation := Some(me.phase.seen))])
  }

  /** The check that ends `update_quic_keys`: the worker's keys are the result. */
  predicate Returns(s: State, w: nat) {
    w in s.workers && s.workers[w].phase.AtLoop? && s.workers[w].generation == Some(s.generation)
  }

  // ---------------------------------------------------------------- invariant

  /** Keys built since the counter showed `seen`. */
  ghost predicate BuiltSince(s: State, keys: seq<Keyset>, seen: nat) {
    1 <= seen && exists v :: seen - 1 <= v < |s.lists| && keys == KeysOf(s.lists[v])
  }

  ghost predicate WorkerOk(s: State, me: Worker) {
    match me.phase
    case AtLoop => me.generation.Some? ==> BuiltSince(s, me.keys, me.generation.value)
    case Stale(seen) => 1 <= seen <= s.generation
    case Rebuilt(seen) => BuiltSince(s, me.keys, seen)
  }

  ghost predicate Inv(s: State) {
    && |s.lists| == s.generation + (if s.updater.Unbumped? then 1 else 0)
    && (forall v :: 0 <= v < |s.lists| ==> s.lists[v] != [])
    && (s.workers != map[] ==> 1 <= s.generation)
    && (forall w <- s.workers :: WorkerOk(s, s.workers[w]))
  }

  lemma BuiltSinceGrows(s: State, t: State, keys: seq<Keyset>, seen: nat)
    requires BuiltSince(s, keys, seen) && s.lists <= t.lists
    ensures BuiltSince(t, keys, seen)
  {
    var v :| seen - 1 <= v < |s.lists| && keys == KeysOf(s.lists[v]);
    assert t.lists[v] == s.lists[v];
  }

  lemma OthersOk(s: State, t: State, me: Worker)
    requires WorkerOk(s, me) && s.lists <= t.lists && s.generation <= t.generation
    ensures WorkerOk(t, me)
  {
    match me.phase {
      case AtLoop =>
        if me.generation.Some? {
          BuiltSinceGrows(s, t, me.keys, me.generation.value);
        }
      case Stale(_) =>
      case Rebuilt(seen) => BuiltSinceGrows(s, t, me.keys, seen);
    }
  }

  lemma StepKeepsInv(l: nat, s: State, e: Event)
    requires Inv(s) && Enabled(s, e)
    ensures Inv(Apply(l, s, e))
  {
    var t := Apply(l, s, e);
    forall w | w in t.workers ensures WorkerOk(t, t.workers[w]) {
      if w in s.workers && t.workers[w] == s.workers[w] {
        OthersOk(s, t, s.workers[w]);
      } else {
        TouchedOk(l, s, e, w);
      }
    }
  }

  lemma TouchedOk(l: nat, s: State, e: Event, w: nat)
    requires Inv(s) && Enabled(s, e)
    requires w in Apply(l, s, e).workers && (w in s.workers ==> Apply(l, s, e).workers[w] != s.workers[w])
    ensures WorkerOk(Apply(l, s, e), Apply(l, s, e).workers[w])
  {
    var t := Apply(l, s, e);
    match e {
      case Rebuild(_) =>
        var last := |s.lists| - 1;
        assert t.workers[w].keys == KeysOf(t.lists[last]);
      case Remember(_) =>
        BuiltSinceGrows(s, t, s.workers[w].keys, s.workers[w].phase.seen);
      case _ =>
    }
  }

  // ---------------------------------------------------------------- all interleavings

  /** The state after a schedule; a step that is not enabled does not happen. */
  function Run(l: nat, es: seq<Event>): State {
    if es == [] then INIT
    else
      var s, e := Run(l, es[..|es| - 1]), es[|es| - 1];
      if Enabled(s, e) then Apply(l, s, e) else s
  }

  lemma {:induction false} RunKeepsInv(l: nat, es: seq<Event>)
    ensures Inv(Run(l, es))
  {
    if es == [] {
    } else {
      var s, e := Run(l, es[..|es| - 1]), es[|es| - 1];
      RunKeepsInv(l, es[..|es| - 1]);
      if Enabled(s, e) {
        StepKeepsInv(l, s, e);
      }
    }
  }

  /** The keys of the current list, or of the one just before it while the updater stands
      between replacing the list and bumping the counter. */
  ghost predicate Recent(s: State, keys: seq<Keyset>) {
    var n := |s.lists|;
    || (1 <= n && keys == KeysOf(s.lists[n - 1]))
    || (s.updater.Unbumped? && 2 <= n && keys == KeysOf(s.lists[n - 2]))
  }

  lemma BuiltRecently(s: State, keys: seq<Keyset>)
    requires Inv(s) && BuiltSince(s, keys, s.generation)
    ensures keys != [] && Recent(s, keys)
  {
    var v :| s.generation - 1 <= v < |s.lists| && keys == KeysOf(s.lists[v]);
    assert s.lists[v] != [];
  }

  /** In every interleaving, keys that `update_quic_keys` returns are recent and never empty. */
  lemma ReturnedKeysAreRecent(l: nat, es: seq<Event>, w: nat)
    requires Returns(Run(l, es), w)
    ensures Run(l, es).workers[w].keys != [] && Recent(Run(l, es), Run(l, es).workers[w].keys)
  {
    RunKeepsInv(l, es);
    var s := Run(l, es);
    assert WorkerOk(s, s.workers[w]);
    BuiltRecently(s, s.workers[w].keys);
  }

  lemma RunNext(l: nat, es: seq<Event>, e: Event)
    ensures Run(l, es + [e]) == if Enabled(Run(l, es), e) then Apply(l, Run(l, es), e) else Run(l, es)
  {
    assert (es + [e])[..|es|] == es;
  }

  lemma Overwritten(m: map<nat, Worker>, w: nat, a: Worker, b: Worker)
    ensures m[w := a][w := b] == m[w := b]
  {
  }

  /** The three steps of a rebuild. */
  lemma CatchUp(l: nat, s: State, w: nat)
    requires Inv(s) && !s.aborted && w in s.workers && s.workers[w].phase.AtLoop? && !Returns(s, w)
    ensures Enabled(s, Check(w)) && Enabled(Apply(l, s, Check(w)), Rebuild(w))
    ensures Enabled(Apply(l, Apply(l, s, Check(w)), Rebuild(w)), Remember(w))
    ensures Apply(l, Apply(l, Apply(l, s, Check(w)), Rebuild(w)), Remember(w))
            == s.(workers := s.workers[w := Worker(AtLoop, Some(s.generation), KeysOf(Current(s)))])
  {
    var me := s.workers[w];
    var stale := me.(phase := Stale(s.generation), keys := []);
    var built := me.(phase := Rebuilt(s.generation), keys := KeysOf(Current(s)));
    assert Apply(l, s, Check(w)) == s.(workers := s.workers[w := stale]);
    Overwritten(s.workers, w, stale, built);
    assert Current(s) != [];
    assert Apply(l, Apply(l, s, Check(w)), Rebuild(w)) == s.(workers := s.workers[w := built]);
    Overwritten(s.workers, w, built, Worker(AtLoop, Some(s.generation), KeysOf(Current(s))));
  }

  /** Left alone, a worker returns after at most one rebuild, with the current keys, and nothing
      else has changed. */
  lemma QuietWorkerCatchesUp(l: nat, es: seq<Event>, w: nat)
    requires var s := Run(l, es); !s.aborted && w in s.workers && s.workers[w].phase.AtLoop? && !Returns(s, w)
    ensures var s, t := Run(l, es), Run(l, es + [Check(w), Rebuild(w), Remember(w)]);
            && t == s.(workers := s.workers[w := Worker(AtLoop, Some(s.generation), KeysOf(Current(s)))])
            && Returns(t, w)
  {
    var s := Run(l, es);
    RunKeepsInv(l, es);
    CatchUp(l, s, w);
    var a := es + [Check(w)];
    RunNext(l, es, Check(w));
    var b := a + [Rebuild(w)];
    RunNext(l, a, Rebuild(w));
    RunNext(l, b, Remember(w));
    assert es + [Check(w), Rebuild(w), Remember(w)] == b + [Remember(w)];
  }

  // ---------------------------------------------------------------- assertions

  /** What ends the process: a file without tickets, or a list all of whose 256 first octets are
      in use. */
  ghost predicate Fatal(s: State, e: Event) {
    match e
    case Load(ts) => ts == []
    case Fetch(ts, now, _) => |Names(Expire(ts, now))| == 256
    case Update(now, _) => |Names(Expire(Current(s), now))| == 256
    case _ => false
  }

  lemma UpdatedNotEmpty(l: nat, ts: seq<Ticket>, now: nat, draw: Draw)
    requires Updated(ts, l, now, draw).Some? && (1 <= l || !Altered(ts, l, now))
    ensures Updated(ts, l, now, draw).value != []
  {
    if 1 <= l {
      EncryptionAvailable(ts, l, now, draw);
    }
  }

  /** A step fails an assertion, or gives up for want of an octet, exactly when it is one of
      those: the lists of the internal updater and of memcached and Redis are never empty, and a
      worker never finds an empty one. */
  lemma StepAborts(l: nat, s: State, e: Event)
    requires 1 <= l && Inv(s) && Enabled(s, e)
    ensures Apply(l, s, e).aborted <==> Fatal(s, e)
  {
    match e {
      case Fetch(ts, now, draw) =>
        AbortsIff(ts, l, now, draw);
        if Updated(ts, l, now, draw).Some? {
          UpdatedNotEmpty(l, ts, now, draw);
        }
      case Update(now, draw) =>
        AbortsIff(Current(s), l, now, draw);
        if Updated(Current(s), l, now, draw).Some? {
          UpdatedNotEmpty(l, Current(s), now, draw);
        }
      case Rebuild(w) => assert WorkerOk(s, s.workers[w]);
      case _ =>
    }
  }

  /** The assertion behind the internal updater, in every interleaving: its list is not empty,
      and its names are distinct. */
  lemma UpdaterAssertionHolds(l: nat, es: seq<Event>, now: nat, draw: Draw)
    requires 1 <= l && Enabled(Run(l, es), Update(now, draw)) && Updated(Current(Run(l, es)), l, now, draw).Some?
    ensures var t := Apply(l, Run(l, es), Update(now, draw));
            !t.aborted && Current(t) != [] && DistinctNames(Current(t))
  {
    UpdatedNotEmpty(l, Current(Run(l, es)), now, draw);
    UpdatedDistinct(Current(Run(l, es)), l, now, draw);
  }

  /** The assertion of a worker: it never finds the ticket list empty when it rebuilds. */
  lemma RebuildFindsTickets(l: nat, es: seq<Event>, w: nat)
    requires w in Run(l, es).workers && Run(l, es).workers[w].phase.Stale?
    ensures Current(Run(l, es)) != []
  {
    RunKeepsInv(l, es);
    assert WorkerOk(Run(l, es), Run(l, es).workers[w]);
  }

  /** Event i of the run happens and is one of those. */
  ghost predicate FatalAt(l: nat, es: seq<Event>, i: nat) {
    i < |es| && Enabled(Run(l, es[..i]), es[i]) && Fatal(Run(l, es[..i]), es[i])
  }

  lemma FatalBefore(l: nat, es: seq<Event>, i: nat)
    requires i + 1 < |es|
    ensures FatalAt(l, es, i) <==> FatalAt(l, es[..|es| - 1], i)
  {
    assert es[..|es| - 1][..i] == es[..i];
  }

  /** In every interleaving: the process ends itself if and only if a file without tickets is
      loaded, or a list with all octets in use comes up. */
  lemma {:induction false} AbortsIffFatal(l: nat, es: seq<Event>)
    requires 1 <= l
    ensures Run(l, es).aborted <==> exists i: nat :: FatalAt(l, es, i)
  {
    if es == [] {
    } else {
      var init, e := es[..|es| - 1], es[|es| - 1];
      AbortsIffFatal(l, init);
      forall i: nat | i < |init|
        ensures FatalAt(l, es, i) <==> FatalAt(l, init, i)
      {
        FatalBefore(l, es, i);
      }
      LastAborts(l, init, e);
      assert Run(l, es).aborted <==> Run(l, init).aborted || FatalAt(l, es, |init|);
    }
  }

  lemma LastAborts(l: nat, init: seq<Event>, e: Event)
    requires 1 <= l
    ensures var s := Run(l, init);
            (if Enabled(s, e) then Apply(l, s, e) else s).aborted <==> s.aborted || (Enabled(s, e) && Fatal(s, e))
  {
    RunKeepsInv(l, init);
    if Enabled(Run(l, init), e) {
      StepAborts(l, Run(l, init), e);
    }
  }

  // ---------------------------------------------------------------- connection ids

  /** A cid cipher: for each secret, decryption undoes encryption, both when the length is
      given and when it is unknown (0) and other octets follow. */
  datatype Cipher<!P> = Cipher(enc: (nat, P) -> seq<Octet>, dec: (nat, seq<Octet>, nat) -> Option<(P, nat)>)

  ghost predicate Inverse<P(!new)>(c: Cipher<P>) {
    && (forall k, p :: c.enc(k, p) != [])
    && (forall k, p, rest: seq<Octet> :: c.dec(k, c.enc(k, p) + rest, 0) == Some((p, |c.enc(k, p)|)))
    && (forall k, p :: c.dec(k, c.enc(k, p), |c.enc(k, p)|) == Some((p, |c.enc(k, p)|)))
  }

  function FindKeyset(keys: seq<Keyset>, id: Octet): (r: Option<Keyset>)
    ensures r.Some? <==> exists i :: 0 <= i < |keys| && keys[i].name == id
    ensures r.Some? ==> r.value in keys && r.value.name == id
  {
    if keys == [] then None
    else if keys[0].name == id then Some(keys[0])
    else FindKeyset(keys[1..], id)
  }

  method FindQuicKeyset(keys: seq<Keyset>, id: Octet) returns (r: Option<Keyset>)
    ensures r == FindKeyset(keys, id)
  {
    var i := 0;
    while i != |keys|
      invariant 0 <= i <= |keys| && FindKeyset(keys, id) == FindKeyset(keys[i..], id)
    {
      if keys[i].name == id {
        return Some(keys[i]);
      }
      assert keys[i..][1..] == keys[i + 1..];
      i := i + 1;
    }
    r := None;
  }

  /** Encrypts with the newest key and puts its name in front. */
  function EncryptCid<P>(c: Cipher<P>, keys: seq<Keyset>, p: P): seq<Octet>
    requires keys != []
  {
    [keys[0].name] + c.enc(keys[0].secret, p)
  }

  /** Returns the plaintext and the number of octets used; `len` is 0 when unknown. */
  function DecryptCid<P>(c: Cipher<P>, keys: seq<Keyset>, cid: seq<Octet>, len: nat): Option<(P, nat)>
    requires cid != []
  {
    if len == 1 then None
    else
      match FindKeyset(keys, cid[0])
      case None => None
      case Some(key) =>
        match c.dec(key.secret, cid[1..], if len != 0 then len - 1 else 0)
        case None => None
        case Some((p, used)) => Some((p, 1 + used))
  }

  lemma {:induction false} FindUnique(keys: seq<Keyset>, i: nat)
    requires i < |keys| && forall a, b :: 0 <= a < b < |keys| ==> keys[a].name != keys[b].name
    ensures FindKeyset(keys, keys[i].name) == Some(keys[i])
  {
    if i == 0 {
    } else {
      FindUnique(keys[1..], i - 1);
    }
  }

  /** A cid made under one worker's newest ticket is understood by every worker whose list
      still holds that ticket and has distinct names, and by no worker whose list lacks the
      name. */
  lemma CidRoundTrip<P(!new)>(c: Cipher<P>, ours: seq<Ticket>, theirs: seq<Ticket>, p: P, rest: seq<Octet>)
    requires Inverse(c) && ours != [] && DistinctNames(theirs)
    ensures var cid := EncryptCid(c, KeysOf(ours), p);
            && (ours[0] in theirs ==>
                  && DecryptCid(c, KeysOf(theirs), cid + rest, 0) == Some((p, |cid|))
                  && DecryptCid(c, KeysOf(theirs), cid, |cid|) == Some((p, |cid|)))
            && (ours[0].name !in Names(theirs) ==> DecryptCid(c, KeysOf(theirs), cid + rest, 0) == None)
  {
    var mine, keys := KeysOf(ours), KeysOf(theirs);
    var body := c.enc(mine[0].secret, p);
    var cid := EncryptCid(c, mine, p);
    assert (cid + rest)[1..] == body + rest && cid[1..] == body;
    if ours[0] in theirs {
      var i :| 0 <= i < |theirs| && theirs[i] == ours[0];
      FindUnique(keys, i);
    }
    assert forall i :: 0 <= i < |keys| ==> keys[i].name == theirs[i].name && theirs[i].name in Names(theirs);
  }

  // ---------------------------------------------------------------- connection ids over runs

  /** The keyset is there, and no different one of its name is in front. */
  predicate FirstOfName(keys: seq<Keyset>, key: Keyset) {
    exists i :: 0 <= i < |keys| && keys[i] == key && forall j :: 0 <= j < i ==> keys[j].name != key.name
  }

  lemma {:induction false} FindFirst(keys: seq<Keyset>, key: Keyset)
    ensures FindKeyset(keys, key.name) == Some(key) <==> FirstOfName(keys, key)
  {
    if keys == [] {
    } else {
      var rest := keys[1..];
      FindFirst(rest, key);
      if keys[0].name != key.name && FirstOfName(rest, key) {
        var i :| 0 <= i < |rest| && rest[i] == key && forall j :: 0 <= j < i ==> rest[j].name != key.name;
        assert keys[i + 1] == key;
      }
      if keys[0].name != key.name && FirstOfName(keys, key) {
        var i :| 0 <= i < |keys| && keys[i] == key && forall j :: 0 <= j < i ==> keys[j].name != key.name;
        assert rest[i - 1] == key;
      }
    }
  }

  lemma CidFinds<P(!new)>(c: Cipher<P>, mine: seq<Keyset>, theirs: seq<Keyset>, p: P, rest: seq<Octet>)
    requires Inverse(c) && mine != []
    ensures var cid := EncryptCid(c, mine, p);
            && (FindKeyset(theirs, mine[0].name) == Some(mine[0]) ==>
                  && DecryptCid(c, theirs, cid + rest, 0) == Some((p, |cid|))
                  && DecryptCid(c, theirs, cid, |cid|) == Some((p, |cid|)))
            && (FindKeyset(theirs, mine[0].name).None? ==> DecryptCid(c, theirs, cid + rest, 0) == None)
  {
    var body := c.enc(mine[0].secret, p);
    var cid := EncryptCid(c, mine, p);
    assert (cid + rest)[1..] == body + rest && cid[1..] == body;
  }

  /** In every interleaving, whatever the stores register: a cid that one worker makes when
      `update_quic_keys` has returned reaches its own key, then and at any later time, at another
      worker for which it has returned, if and only if that worker's keys have the key with no
      different one of the same name in front. It then decrypts. */
  lemma CidReachesItsKeyIff<P(!new)>(c: Cipher<P>, l: nat, es: seq<Event>, fs: seq<Event>, w: nat, v: nat, p: P, rest: seq<Octet>)
    requires Inverse(c) && Returns(Run(l, es), w) && Returns(Run(l, es + fs), v)
    ensures var mine, theirs := Run(l, es).workers[w].keys, Run(l, es + fs).workers[v].keys;
            && mine != [] && theirs != []
            && (FindKeyset(theirs, mine[0].name) == Some(mine[0]) <==> FirstOfName(theirs, mine[0]))
            && var cid := EncryptCid(c, mine, p);
               FirstOfName(theirs, mine[0]) ==>
                 && DecryptCid(c, theirs, cid + rest, 0) == Some((p, |cid|))
                 && DecryptCid(c, theirs, cid, |cid|) == Some((p, |cid|))
  {
    ReturnedKeysAreRecent(l, es, w);
    ReturnedKeysAreRecent(l, es + fs, v);
    var mine, theirs := Run(l, es).workers[w].keys, Run(l, es + fs).workers[v].keys;
    FindFirst(theirs, mine[0]);
    CidFinds(c, mine, theirs, p, rest);
  }

  /** A file is loaded, and a worker gets its keys. */
  lemma LoadAndRebuild(l: nat, es: seq<Event>, ts: seq<Ticket>, w: nat) returns (fs: seq<Event>)
    requires ts != [] && Enabled(Run(l, es), Load(ts))
    requires w in Run(l, es).workers ==> Returns(Run(l, es), w)
    ensures !Run(l, es + fs).aborted && Run(l, es + fs).updater.Idle?
    ensures Returns(Run(l, es + fs), w) && Run(l, es + fs).workers[w].keys == KeysOf(ts)
  {
    RunKeepsInv(l, es);
    var a := es + [Load(ts)];
    RunNext(l, es, Load(ts));
    var b := a + [Bump];
    RunNext(l, a, Bump);
    var d := b + [Start(w)];
    RunNext(l, b, Start(w));
    QuietWorkerCatchesUp(l, d, w);
    fs := [Load(ts), Bump, Start(w)] + [Check(w), Rebuild(w), Remember(w)];
    assert es + fs == d + [Check(w), Rebuild(w), Remember(w)];
    assert Current(Run(l, d)) == ts;
  }

  /** Two tickets of one name in a file: a worker makes a cid under the older, and later, with
      both in its list, takes it to the key of the other. */
  lemma FileCollides(l: nat, a: Ticket, b: Ticket) returns (es: seq<Event>, fs: seq<Event>)
    requires a.name == b.name && a.secret != b.secret
    ensures Returns(Run(l, es), 0) && Returns(Run(l, es + fs), 0)
    ensures var mine, theirs := Run(l, es).workers[0].keys, Run(l, es + fs).workers[0].keys;
            && mine != [] && mine[0] in theirs && !FirstOfName(theirs, mine[0])
            && FindKeyset(theirs, mine[0].name) == Some(Keyset(a.name, a.secret))
  {
    es := LoadAndRebuild(l, [], [b], 0);
    assert [] + es == es;
    fs := LoadAndRebuild(l, es, [a, b], 0);
    var mine, theirs := Run(l, es).workers[0].keys, Run(l, es + fs).workers[0].keys;
    assert theirs[1] == mine[0];
    FindFirst(theirs, mine[0]);
  }

  // ---------------------------------------------------------------- distinct names

  /** Loading file i, if that happens, brings distinct names. */
  ghost predicate FileOk(l: nat, es: seq<Event>, i: nat) {
    i < |es| && es[i].Load? && Enabled(Run(l, es[..i]), es[i]) ==> DistinctNames(es[i].ts)
  }

  ghost predicate AllDistinct(lists: seq<seq<Ticket>>) {
    forall v :: 0 <= v < |lists| ==> DistinctNames(lists[v])
  }

  lemma StepDistinct(l: nat, s: State, e: Event)
    requires Enabled(s, e)
    ensures AllDistinct(Apply(l, s, e).lists) <==> AllDistinct(s.lists) && (e.Load? ==> DistinctNames(e.ts))
  {
    var t := Apply(l, s, e);
    match e {
      case Fetch(ts, now, draw) =>
        if Updated(ts, l, now, draw).Some? {
          UpdatedDistinct(ts, l, now, draw);
        }
      case Update(now, draw) =>
        if Updated(Current(s), l, now, draw).Some? {
          UpdatedDistinct(Current(s), l, now, draw);
        }
      case _ =>
    }
    if t.lists != s.lists {
      assert t.lists[|s.lists|] == Current(t);
      assert forall v :: 0 <= v < |s.lists| ==> t.lists[v] == s.lists[v];
    }
  }

  lemma FileBefore(l: nat, es: seq<Event>, i: nat)
    requires i + 1 < |es|
    ensures FileOk(l, es, i) <==> FileOk(l, es[..|es| - 1], i)
  {
    assert es[..|es| - 1][..i] == es[..i];
  }

  lemma LastDistinct(l: nat, init: seq<Event>, e: Event)
    ensures var s := Run(l, init);
            AllDistinct((if Enabled(s, e) then Apply(l, s, e) else s).lists)
            <==> AllDistinct(s.lists) && (e.Load? && Enabled(s, e) ==> DistinctNames(e.ts))
  {
    if Enabled(Run(l, init), e) {
      StepDistinct(l, Run(l, init), e);
    }
  }

  /** All lists ever in use have distinct names if and only if all files have: what the internal
      updater, memcached and Redis register always does. */
  lemma {:induction false} ListsDistinctIff(l: nat, es: seq<Event>)
    ensures AllDistinct(Run(l, es).lists) <==> forall i: nat :: FileOk(l, es, i)
  {
    if es == [] {
    } else {
      var init, e := es[..|es| - 1], es[|es| - 1];
      ListsDistinctIff(l, init);
      forall i: nat | i < |init|
        ensures FileOk(l, es, i) <==> FileOk(l, init, i)
      {
        FileBefore(l, es, i);
      }
      LastDistinct(l, init, e);
      assert AllDistinct(Run(l, es).lists) <==> AllDistinct(Run(l, init).lists) && FileOk(l, es, |init|);
    }
  }

  lemma ReturnedKeysDistinct(l: nat, es: seq<Event>, w: nat)
    requires Returns(Run(l, es), w) && forall i: nat :: FileOk(l, es, i)
    ensures var keys := Run(l, es).workers[w].keys;
            keys != [] && forall a, b :: 0 <= a < b < |keys| ==> keys[a].name != keys[b].name
  {
    ReturnedKeysAreRecent(l, es, w);
    ListsDistinctIff(l, es);
  }

  /** In every interleaving in which no file has colliding names, so in all without files: a cid
      decrypts at every worker whose keys still hold the ticket. */
  lemma CidsDecryptEverywhere<P(!new)>(c: Cipher<P>, l: nat, es: seq<Event>, fs: seq<Event>, w: nat, v: nat, p: P, rest: seq<Octet>)
    requires Inverse(c) && Returns(Run(l, es), w) && Returns(Run(l, es + fs), v)
    requires forall i: nat :: FileOk(l, es + fs, i)
    ensures var mine, theirs := Run(l, es).workers[w].keys, Run(l, es + fs).workers[v].keys;
            && mine != []
            && var cid := EncryptCid(c, mine, p);
               mine[0] in theirs ==>
                 && DecryptCid(c, theirs, cid + rest, 0) == Some((p, |cid|))
                 && DecryptCid(c, theirs, cid, |cid|) == Some((p, |cid|))
  {
    ReturnedKeysDistinct(l, es + fs, v);
    CidReachesItsKeyIff(c, l, es, fs, w, v, p, rest);
    var mine, theirs := Run(l, es).workers[w].keys, Run(l, es + fs).workers[v].keys;
    if mine[0] in theirs {
      var i :| 0 <= i < |theirs| && theirs[i] == mine[0];
      assert FirstOfName(theirs, mine[0]);
    }
  }
}
