/**
 * The gateway's cache protocol: `getXorbSource` (gateway/handlers.go), the miss coalescer
 * (gateway/singleflight.go) and `Open`/`Put` (gateway/cache.go), as atomic steps of any number of
 * concurrent requests over one file system.  Every step may be taken in any order, and every file
 * operation and download may fail.
 */
module CacheProtocol {
  import opened Prelude
  import opened Cache

  /** Directory entries name inodes; an inode outlives its name while a reader holds it. */
  datatype Fs = Fs(dir: map<File, nat>, data: map<nat, seq<Byte>>)

  /** Which `Open` of the handler: before the miss, inside the coalesced fetch, or after it. */
  datatype Stage = First | Recheck | Reopen

  datatype Pc =
    | Looking(stage: Stage)
    | Opening(stage: Stage)
    | Dropping(stage: Stage)
    | Joining
    | Following(leader: nat)
    | Removing
    | Creating
    | Copying(inode: nat, hashed: seq<Byte>)
    | Verifying(inode: nat, hashed: seq<Byte>)
    | Renaming(inode: nat, hashed: seq<Byte>)
    | Booking
    | Cleaning
    | Finishing(ok: bool)
    | Served(inode: nat)
    | Failed

  datatype Request = Request(hash: Hash, size: nat, pc: Pc)

  /** `flight` is the coalescer's table; `published` remembers the hashes renamed into place since boot. */
  datatype State = State(fs: Fs, lru: seq<Entry>, flight: map<Hash, nat>, reqs: map<nat, Request>,
                         published: set<Hash>)

  /** The merkle hash of the content and the byte budget. */
  datatype Config = Config(H: seq<Byte> -> Hash, maxBytes: int)

  datatype Step =
    | Arrive(id: nat, hash: Hash, size: nat)
    | Look(id: nat)
    | OpenFile(id: nat, fails: bool)
    | DropEntry(id: nat)
    | Join(id: nat)
    | Refuse(id: nat)
    | RemoveTmp(id: nat, fails: bool)
    | Create(id: nat, inode: nat, fails: bool)
    | Copy(id: nat, chunk: seq<Byte>)
    | CopyFails(id: nat, chunk: seq<Byte>)
    | CopyEnds(id: nat, syncFails: bool)
    | Verify(id: nat)
    | Rename(id: nat, fails: bool)
    | Book(id: nat, kept: set<Hash>)
    | Clean(id: nat, fails: bool)
    | Finish(id: nat)

  // ----- transitions

  function Goto(s: State, id: nat, pc: Pc): State
    requires id in s.reqs
  {
    s.(reqs := s.reqs[id := s.reqs[id].(pc := pc)])
  }

  function Unlink(fs: Fs, f: File): Fs {
    fs.(dir := fs.dir - {f})
  }

  /** A write of `chunk` at offset `off` of an inode. */
  function WriteAt(fs: Fs, inode: nat, off: nat, chunk: seq<Byte>): Fs {
    if inode !in fs.data then fs
    else
      var was := fs.data[inode];
      var front := if off <= |was| then was[..off] else was + seq(off - |was|, _ => 0);
      var back := if off + |chunk| <= |was| then was[off + |chunk|..] else [];
      fs.(data := fs.data[inode := front + chunk + back])
  }

  /** What follows an index miss or a failed open, by stage. */
  function OnMiss(stage: Stage): Pc {
    match stage
    case First => Joining
    case Recheck => Removing
    case Reopen => Failed
  }

  /** What follows a successful open, by stage. */
  function OnHit(stage: Stage, inode: nat): Pc {
    match stage
    case First => Served(inode)
    case Recheck => Finishing(true)
    case Reopen => Served(inode)
  }

  function Entries(l: seq<Entry>): set<Hash> {
    set e | e in l :: e.hash
  }

  /** The leader's result reaches everyone who waits for it. */
  function Release(reqs: map<nat, Request>, leader: nat, ok: bool): map<nat, Request> {
    map id | id in reqs ::
      if id == leader || reqs[id].pc == Following(leader)
      then reqs[id].(pc := if ok then Looking(Reopen) else Failed)
      else reqs[id]
  }

  /** One atomic step; a step that is not enabled changes nothing. */
  function Next(c: Config, s: State, step: Step): State {
    if step.Arrive? then
      if step.id in s.reqs then s
      else s.(reqs := s.reqs[step.id := Request(step.hash, step.size, Looking(First))])
    else if step.id !in s.reqs then s
    else
      var id, req := step.id, s.reqs[step.id];
      var h, pc := req.hash, req.pc;
      match step
      case Look(_) =>
        if !pc.Looking? then s
        else if h in Entries(s.lru) then Goto(s.(lru := After(s.lru, Hit(h), c.maxBytes)), id, Opening(pc.stage))
        else Goto(s, id, OnMiss(pc.stage))
      case OpenFile(_, fails) =>
        if !pc.Opening? then s
        else if fails || Final(h) !in s.fs.dir then Goto(s, id, Dropping(pc.stage))
        else Goto(s, id, OnHit(pc.stage, s.fs.dir[Final(h)]))
      case DropEntry(_) =>
        if !pc.Dropping? then s
        else Goto(s.(lru := After(s.lru, Drop(h), c.maxBytes)), id, OnMiss(pc.stage))
      case Join(_) =>
        if !pc.Joining? then s
        else if h in s.flight then Goto(s, id, Following(s.flight[h]))
        else Goto(s.(flight := s.flight[h := id]), id, Looking(Recheck))
      case Refuse(_) =>
        if !pc.Removing? then s else Goto(s, id, Finishing(false))
      case RemoveTmp(_, fails) =>
        if !pc.Removing? then s
        else Goto(if fails then s else s.(fs := Unlink(s.fs, Tmp(h))), id, Creating)
      case Create(_, inode, fails) =>
        if !pc.Creating? then s
        else if fails then Goto(s, id, Finishing(false))
        else if Tmp(h) in s.fs.dir then
          var was := s.fs.dir[Tmp(h)];
          Goto(s.(fs := s.fs.(data := s.fs.data[was := []])), id, Copying(was, []))
        else if inode in s.fs.data then s
        else
          Goto(s.(fs := Fs(s.fs.dir[Tmp(h) := inode], s.fs.data[inode := []])), id, Copying(inode, []))
      case Copy(_, chunk) =>
        if !pc.Copying? then s
        else
          Goto(s.(fs := WriteAt(s.fs, pc.inode, |pc.hashed|, chunk)), id, Copying(pc.inode, pc.hashed + chunk))
      case CopyFails(_, chunk) =>
        if !pc.Copying? then s
        else Goto(s.(fs := WriteAt(s.fs, pc.inode, |pc.hashed|, chunk)), id, Cleaning)
      case CopyEnds(_, syncFails) =>
        if !pc.Copying? then s
        else if |pc.hashed| != req.size || syncFails then Goto(s, id, Cleaning)
        else Goto(s, id, Verifying(pc.inode, pc.hashed))
      case Verify(_) =>
        if !pc.Verifying? then s
        else if c.H(pc.hashed) != h then Goto(s, id, Cleaning)
        else Goto(s, id, Renaming(pc.inode, pc.hashed))
      case Rename(_, fails) =>
        if !pc.Renaming? then s
        else if fails || Tmp(h) !in s.fs.dir then Goto(s, id, Cleaning)
        else
          var dir := s.fs.dir[Final(h) := s.fs.dir[Tmp(h)]] - {Tmp(h)};
          Goto(s.(fs := s.fs.(dir := dir), published := s.published + {h}), id, Booking)
      case Book(_, kept) =>
        if !pc.Booking? then s
        else
          var order := [Entry(h, req.size, Final(h))] + Without(s.lru, h);
          var lru := After(s.lru, Store(order[0]), c.maxBytes);
          var gone := set f | f in s.fs.dir && f.Final? && f.hash in Entries(order) - Entries(lru) - kept;
          Goto(s.(lru := lru, fs := s.fs.(dir := s.fs.dir - gone)), id, Finishing(true))
      case Clean(_, fails) =>
        if !pc.Cleaning? then s
        else Goto(if fails then s else s.(fs := Unlink(s.fs, Tmp(h))), id, Finishing(false))
      case Finish(_) =>
        if !pc.Finishing? then s
        else s.(flight := s.flight - {h}, reqs := Release(s.reqs, id, pc.ok))
  }

  function Run(c: Config, s: State, steps: seq<Step>): State
    decreases |steps|
  {
    if steps == [] then s else Run(c, Next(c, s, steps[0]), steps[1..])
  }

  /** At boot the index and the coalescer are empty; any files may be left over, but no two names share
      an inode. */
  ghost predicate Boot(s: State) {
    && FsOk(s.fs) && s.lru == [] && s.flight == map[] && s.reqs == map[] && s.published == {}
  }

  // ----- the invariant

  ghost predicate FsOk(fs: Fs) {
    && (forall f :: f in fs.dir ==> fs.dir[f] in fs.data)
    && (forall f, g :: f in fs.dir && g in fs.dir && fs.dir[f] == fs.dir[g] ==> f == g)
  }

  /** The request runs the coalesced fetch. */
  predicate Leads(pc: Pc) {
    match pc
    case Looking(stage) => stage == Recheck
    case Opening(stage) => stage == Recheck
    case Dropping(stage) => stage == Recheck
    case Removing | Creating | Copying(_, _) | Verifying(_, _) | Renaming(_, _) | Booking | Cleaning
       | Finishing(_) => true
    case _ => false
  }

  predicate Writes(pc: Pc) {
    pc.Copying? || pc.Verifying? || pc.Renaming?
  }

  /** `h`'s file, if there is one, holds content that hashes to `h`. */
  ghost predicate Good(c: Config, fs: Fs, h: Hash) {
    Final(h) in fs.dir ==> fs.dir[Final(h)] in fs.data && c.H(fs.data[fs.dir[Final(h)]]) == h
  }

  /** What holds of a request because of where it is. */
  ghost predicate RequestOk(c: Config, fs: Fs, published: set<Hash>, req: Request) {
    && (Writes(req.pc) ==> Tmp(req.hash) in fs.dir && fs.dir[Tmp(req.hash)] == req.pc.inode
                           && req.pc.inode in fs.data && fs.data[req.pc.inode] == req.pc.hashed)
    && (req.pc.Verifying? || req.pc.Renaming? ==> |req.pc.hashed| == req.size)
    && (req.pc.Renaming? ==> c.H(req.pc.hashed) == req.hash)
    && (req.pc.Opening? ==> req.hash in published)
    && (req.pc.Booking? ==> req.hash in published)
    && (req.pc.Served? ==> ServedOk(c, fs, req.hash, req.pc.inode))
  }

  /** The handed-out inode holds good content, and no temporary file leads to it any more. */
  ghost predicate ServedOk(c: Config, fs: Fs, h: Hash, inode: nat) {
    && inode in fs.data && c.H(fs.data[inode]) == h
    && forall g :: Tmp(g) in fs.dir ==> fs.dir[Tmp(g)] != inode
  }

  /** The coalescer's table names exactly the leaders, and followers wait for the leader of their hash. */
  ghost predicate FlightOk(flight: map<Hash, nat>, reqs: map<nat, Request>) {
    && (forall id :: id in reqs && Leads(reqs[id].pc) ==> reqs[id].hash in flight && flight[reqs[id].hash] == id)
    && (forall h :: h in flight ==> flight[h] in reqs && reqs[flight[h]].hash == h && Leads(reqs[flight[h]].pc))
    && (forall id :: id in reqs && reqs[id].pc.Following? ==>
          reqs[id].hash in flight && flight[reqs[id].hash] == reqs[id].pc.leader)
  }

  ghost predicate Inv(c: Config, s: State) {
    && FsOk(s.fs) && FlightOk(s.flight, s.reqs)
    && (forall h :: h in s.published ==> Good(c, s.fs, h))
    && (forall e :: e in s.lru ==> e.hash in s.published)
    && (forall id :: id in s.reqs ==> RequestOk(c, s.fs, s.published, s.reqs[id]))
  }

  // ----- steps that leave the files alone

  /** A request moves on by itself. */
  lemma MoveOn(c: Config, s: State, id: nat, pc: Pc, lru: seq<Entry>)
    requires Inv(c, s) && id in s.reqs && RequestOk(c, s.fs, s.published, s.reqs[id].(pc := pc))
    requires Leads(pc) == Leads(s.reqs[id].pc) && !pc.Following?
    requires forall e :: e in lru ==> e.hash in s.published
    ensures Inv(c, Goto(s.(lru := lru), id, pc))
  {
  }

  lemma ArriveOk(c: Config, s: State, id: nat, hash: Hash, size: nat)
    requires Inv(c, s)
    ensures Inv(c, Next(c, s, Arrive(id, hash, size)))
  {
  }

  /** Steps that only change the coalescer's table and where requests are. */
  lemma FlightStep(c: Config, s: State, flight: map<Hash, nat>, reqs: map<nat, Request>)
    requires Inv(c, s) && FlightOk(flight, reqs) && reqs.Keys == s.reqs.Keys
    requires forall id :: id in reqs && reqs[id] != s.reqs[id] ==>
               reqs[id].pc.Looking? || reqs[id].pc.Following? || reqs[id].pc.Failed?
    ensures Inv(c, s.(flight := flight, reqs := reqs))
  {
  }

  lemma JoinFlight(flight: map<Hash, nat>, reqs: map<nat, Request>, id: nat)
    requires FlightOk(flight, reqs) && id in reqs && reqs[id].pc.Joining?
    ensures var h := reqs[id].hash;
      if h in flight then FlightOk(flight, reqs[id := reqs[id].(pc := Following(flight[h]))])
      else FlightOk(flight[h := id], reqs[id := reqs[id].(pc := Looking(Recheck))])
  {
  }

  lemma JoinOk(c: Config, s: State, id: nat)
    requires Inv(c, s)
    ensures Inv(c, Next(c, s, Join(id)))
  {
    if id in s.reqs && s.reqs[id].pc.Joining? {
      JoinFlight(s.flight, s.reqs, id);
      var s' := Next(c, s, Join(id));
      FlightStep(c, s, s'.flight, s'.reqs);
    }
  }

  lemma ReleaseFlight(flight: map<Hash, nat>, reqs: map<nat, Request>, id: nat, ok: bool)
    requires FlightOk(flight, reqs) && id in reqs && Leads(reqs[id].pc)
    ensures FlightOk(flight - {reqs[id].hash}, Release(reqs, id, ok))
  {
    var h, reqs' := reqs[id].hash, Release(reqs, id, ok);
    forall g | g in flight && g != h
      ensures flight[g] in reqs' && reqs'[flight[g]].hash == g && Leads(reqs'[flight[g]].pc)
    {
      assert reqs'[flight[g]] == reqs[flight[g]];
    }
  }

  lemma FinishOk(c: Config, s: State, id: nat)
    requires Inv(c, s)
    ensures Inv(c, Next(c, s, Finish(id)))
  {
    if id in s.reqs && s.reqs[id].pc.Finishing? {
      ReleaseFlight(s.flight, s.reqs, id, s.reqs[id].pc.ok);
      FlightStep(c, s, s.flight - {s.reqs[id].hash}, Release(s.reqs, id, s.reqs[id].pc.ok));
    }
  }

  // ----- steps that change files

  /** What the leader for `h` may do to the files: it touches only `h`'s names and the content of `h`'s
      temporary file, publishes only good content, and uses no inode twice. */
  ghost predicate LeaderWrite(c: Config, fs: Fs, fs': Fs, h: Hash) {
    && FsOk(fs')
    && (forall g :: g != h ==> (Tmp(g) in fs'.dir <==> Tmp(g) in fs.dir))
    && (forall g :: Tmp(g) in fs'.dir ==>
          (Tmp(g) in fs.dir && fs'.dir[Tmp(g)] == fs.dir[Tmp(g)]) || (g == h && fs'.dir[Tmp(g)] !in fs.data))
    && (forall g :: Final(g) in fs'.dir ==>
          (Final(g) in fs.dir && fs'.dir[Final(g)] == fs.dir[Final(g)]) || (g == h && Good(c, fs', h)))
    && (forall inode :: inode in fs.data && !(Tmp(h) in fs.dir && fs.dir[Tmp(h)] == inode) ==>
          inode in fs'.data && fs'.data[inode] == fs.data[inode])
  }

  lemma GoodKept(c: Config, fs: Fs, fs': Fs, h: Hash, g: Hash)
    requires FsOk(fs) && LeaderWrite(c, fs, fs', h) && Good(c, fs, g)
    ensures Good(c, fs', g)
  {
  }

  /** Only one request leads for a hash. */
  lemma OneLeader(s: State, a: nat, b: nat)
    requires FlightOk(s.flight, s.reqs) && a in s.reqs && b in s.reqs
    requires Leads(s.reqs[a].pc) && Leads(s.reqs[b].pc) && s.reqs[a].hash == s.reqs[b].hash
    ensures a == b
  {
  }

  /** The other requests do not notice what the leader for `h` writes. */
  lemma OthersKept(c: Config, s: State, fs': Fs, published': set<Hash>, id: nat, other: nat)
    requires Inv(c, s) && id in s.reqs && Leads(s.reqs[id].pc) && other in s.reqs && other != id
    requires LeaderWrite(c, s.fs, fs', s.reqs[id].hash) && s.published <= published'
    ensures RequestOk(c, fs', published', s.reqs[other])
  {
    var req := s.reqs[other];
    assert RequestOk(c, s.fs, s.published, req);
    if Writes(req.pc) && req.hash == s.reqs[id].hash {
      OneLeader(s, id, other);
    }
  }

  lemma LeaderStep(c: Config, s: State, id: nat, fs': Fs, lru': seq<Entry>, published': set<Hash>, pc': Pc)
    requires Inv(c, s) && id in s.reqs && Leads(s.reqs[id].pc) && Leads(pc')
    requires LeaderWrite(c, s.fs, fs', s.reqs[id].hash)
    requires s.published <= published' <= s.published + {s.reqs[id].hash}
    requires s.reqs[id].hash in published' ==> Good(c, fs', s.reqs[id].hash)
    requires forall e :: e in lru' ==> e.hash in published'
    requires RequestOk(c, fs', published', s.reqs[id].(pc := pc'))
    ensures Inv(c, Goto(State(fs', lru', s.flight, s.reqs, published'), id, pc'))
  {
    forall other | other in s.reqs && other != id ensures RequestOk(c, fs', published', s.reqs[other]) {
      OthersKept(c, s, fs', published', id, other);
    }
    forall g | g in published' ensures Good(c, fs', g) {
      if g in s.published {
        GoodKept(c, s.fs, fs', s.reqs[id].hash, g);
      }
    }
  }

  lemma WithoutMembers(l: seq<Entry>, h: Hash)
    ensures forall e :: e in Without(l, h) ==> e in l
  {
  }

  lemma AfterMembers(l: seq<Entry>, u: Use, maxBytes: int)
    ensures forall e :: e in After(l, u, maxBytes) ==> e in l || (u.Store? && e == u.entry)
  {
    match u {
      case Hit(h) => WithoutMembers(l, h);
      case Store(e) =>
        WithoutMembers(l, e.hash);
        FitLongest([e] + Without(l, e.hash), maxBytes);
      case Drop(h) => WithoutMembers(l, h);
    }
  }

  lemma OpenSteps(c: Config, s: State, step: Step)
    requires Inv(c, s) && (step.Look? || step.OpenFile? || step.DropEntry?)
    ensures Inv(c, Next(c, s, step))
  {
    if step.id in s.reqs {
      var id, req := step.id, s.reqs[step.id];
      assert RequestOk(c, s.fs, s.published, req);
      if step.Look? && req.pc.Looking? {
        AfterMembers(s.lru, Hit(req.hash), c.maxBytes);
        if req.hash in Entries(s.lru) {
          MoveOn(c, s, id, Opening(req.pc.stage), After(s.lru, Hit(req.hash), c.maxBytes));
        } else {
          MoveOn(c, s, id, OnMiss(req.pc.stage), s.lru);
        }
      } else if step.OpenFile? && req.pc.Opening? {
        if step.fails || Final(req.hash) !in s.fs.dir {
          MoveOn(c, s, id, Dropping(req.pc.stage), s.lru);
        } else {
          assert Good(c, s.fs, req.hash);
          MoveOn(c, s, id, OnHit(req.pc.stage, s.fs.dir[Final(req.hash)]), s.lru);
        }
      } else if step.DropEntry? && req.pc.Dropping? {
        AfterMembers(s.lru, Drop(req.hash), c.maxBytes);
        MoveOn(c, s, id, OnMiss(req.pc.stage), After(s.lru, Drop(req.hash), c.maxBytes));
      }
    }
  }

  lemma CheckSteps(c: Config, s: State, step: Step)
    requires Inv(c, s) && (step.Refuse? || step.CopyEnds? || step.Verify?)
    ensures Inv(c, Next(c, s, step))
  {
    if step.id in s.reqs {
      var id, req := step.id, s.reqs[step.id];
      assert RequestOk(c, s.fs, s.published, req);
      if step.Refuse? && req.pc.Removing? {
        MoveOn(c, s, id, Finishing(false), s.lru);
      } else if step.CopyEnds? && req.pc.Copying? {
        MoveOn(c, s, id, if |req.pc.hashed| != req.size || step.syncFails then Cleaning
                         else Verifying(req.pc.inode, req.pc.hashed), s.lru);
      } else if step.Verify? && req.pc.Verifying? {
        MoveOn(c, s, id, if c.H(req.pc.hashed) != req.hash then Cleaning
                         else Renaming(req.pc.inode, req.pc.hashed), s.lru);
      }
    }
  }

  lemma TmpSteps(c: Config, s: State, step: Step)
    requires Inv(c, s) && (step.RemoveTmp? || step.Clean?)
    ensures Inv(c, Next(c, s, step))
  {
    if step.id in s.reqs {
      var id, req := step.id, s.reqs[step.id];
      var h := req.hash;
      assert RequestOk(c, s.fs, s.published, req);
      if (step.RemoveTmp? && req.pc.Removing?) || (step.Clean? && req.pc.Cleaning?) {
        LeaderStep(c, s, id, if step.fails then s.fs else Unlink(s.fs, Tmp(h)), s.lru, s.published,
                   if step.Clean? then Finishing(false) else Creating);
      }
    }
  }

  lemma CreateSteps(c: Config, s: State, step: Step)
    requires Inv(c, s) && step.Create?
    ensures Inv(c, Next(c, s, step))
  {
    if step.id in s.reqs && s.reqs[step.id].pc.Creating? {
      var id, req := step.id, s.reqs[step.id];
      var h := req.hash;
      assert RequestOk(c, s.fs, s.published, req);
      if step.fails {
        MoveOn(c, s, id, Finishing(false), s.lru);
      } else if Tmp(h) in s.fs.dir || step.inode !in s.fs.data {
        var inode := if Tmp(h) in s.fs.dir then s.fs.dir[Tmp(h)] else step.inode;
        var fs' := Fs(s.fs.dir[Tmp(h) := inode], s.fs.data[inode := []]);
        assert Tmp(h) in s.fs.dir ==> s.fs.dir[Tmp(h) := inode] == s.fs.dir;
        LeaderStep(c, s, id, fs', s.lru, s.published, Copying(inode, []));
      }
    }
  }

  lemma CopySteps(c: Config, s: State, step: Step)
    requires Inv(c, s) && (step.Copy? || step.CopyFails?)
    ensures Inv(c, Next(c, s, step))
  {
    if step.id in s.reqs && s.reqs[step.id].pc.Copying? {
      var id, req := step.id, s.reqs[step.id];
      assert RequestOk(c, s.fs, s.published, req);
      var fs' := WriteAt(s.fs, req.pc.inode, |req.pc.hashed|, step.chunk);
      assert fs'.data[req.pc.inode] == req.pc.hashed + step.chunk;
      LeaderStep(c, s, id, fs', s.lru, s.published,
                 if step.Copy? then Copying(req.pc.inode, req.pc.hashed + step.chunk) else Cleaning);
    }
  }

  lemma RenameOk(c: Config, s: State, step: Step)
    requires Inv(c, s) && step.Rename?
    ensures Inv(c, Next(c, s, step))
  {
    if step.id in s.reqs && s.reqs[step.id].pc.Renaming? {
      var id, req := step.id, s.reqs[step.id];
      var h := req.hash;
      assert RequestOk(c, s.fs, s.published, req);
      if step.fails || Tmp(h) !in s.fs.dir {
        MoveOn(c, s, id, Cleaning, s.lru);
      } else {
        var fs' := s.fs.(dir := s.fs.dir[Final(h) := s.fs.dir[Tmp(h)]] - {Tmp(h)});
        LeaderStep(c, s, id, fs', s.lru, s.published + {h}, Booking);
      }
    }
  }

  lemma BookOk(c: Config, s: State, step: Step)
    requires Inv(c, s) && step.Book?
    ensures Inv(c, Next(c, s, step))
  {
    if step.id in s.reqs && s.reqs[step.id].pc.Booking? {
      var id, req := step.id, s.reqs[step.id];
      var h := req.hash;
      assert RequestOk(c, s.fs, s.published, req);
      var entry := Entry(h, req.size, Final(h));
      AfterMembers(s.lru, Store(entry), c.maxBytes);
      var s' := Next(c, s, step);
      LeaderStep(c, s, id, s'.fs, s'.lru, s.published, Finishing(true));
    }
  }

  /** Every step keeps the invariant. */
  lemma NextOk(c: Config, s: State, step: Step)
    requires Inv(c, s)
    ensures Inv(c, Next(c, s, step))
  {
    match step {
      case Arrive(id, hash, size) => ArriveOk(c, s, id, hash, size);
      case Look(_) => OpenSteps(c, s, step);
      case OpenFile(_, _) => OpenSteps(c, s, step);
      case DropEntry(_) => OpenSteps(c, s, step);
      case Join(id) => JoinOk(c, s, id);
      case Refuse(_) => CheckSteps(c, s, step);
      case RemoveTmp(_, _) => TmpSteps(c, s, step);
      case Create(_, _, _) => CreateSteps(c, s, step);
      case Copy(_, _) => CopySteps(c, s, step);
      case CopyFails(_, _) => CopySteps(c, s, step);
      case CopyEnds(_, _) => CheckSteps(c, s, step);
      case Verify(_) => CheckSteps(c, s, step);
      case Rename(_, _) => RenameOk(c, s, step);
      case Book(_, _) => BookOk(c, s, step);
      case Clean(_, _) => TmpSteps(c, s, step);
      case Finish(id) => FinishOk(c, s, id);
    }
  }

  lemma {:induction false} RunOk(c: Config, s: State, steps: seq<Step>)
    requires Inv(c, s)
    ensures Inv(c, Run(c, s, steps))
    decreases |steps|
  {
    if steps != [] {
      NextOk(c, s, steps[0]);
      RunOk(c, Next(c, s, steps[0]), steps[1..]);
    }
  }

  // ----- the theorems

  /** Cache content safety: in every run from boot, every file handed to a reader for `h` holds exactly
      content whose merkle hash is `h`. */
  lemma ContentSafety(c: Config, boot: State, steps: seq<Step>, id: nat)
    requires Boot(boot)
    requires var s := Run(c, boot, steps); id in s.reqs && s.reqs[id].pc.Served?
    ensures var s := Run(c, boot, steps);
            var inode := s.reqs[id].pc.inode;
            inode in s.fs.data && c.H(s.fs.data[inode]) == s.reqs[id].hash
  {
    RunOk(c, boot, steps);
    var s := Run(c, boot, steps);
    assert RequestOk(c, s.fs, s.published, s.reqs[id]);
  }

  /** In every run, at most one request is inside the coalesced fetch of a hash, so that from create to
      rename a `Put` alone owns its temporary name and inode, which hold exactly what it has hashed. */
  lemma ExclusiveOwnership(c: Config, boot: State, steps: seq<Step>, a: nat, b: nat)
    requires Boot(boot)
    requires var s := Run(c, boot, steps); a in s.reqs && b in s.reqs && a != b && Leads(s.reqs[a].pc)
    ensures var s := Run(c, boot, steps);
      && (Leads(s.reqs[b].pc) ==> s.reqs[a].hash != s.reqs[b].hash)
      && (Writes(s.reqs[a].pc) ==>
            && Tmp(s.reqs[a].hash) in s.fs.dir && s.fs.dir[Tmp(s.reqs[a].hash)] == s.reqs[a].pc.inode
            && s.reqs[a].pc.inode in s.fs.data && s.fs.data[s.reqs[a].pc.inode] == s.reqs[a].pc.hashed)
      && (Writes(s.reqs[a].pc) && Writes(s.reqs[b].pc) ==> s.reqs[a].pc.inode != s.reqs[b].pc.inode)
      && (Writes(s.reqs[a].pc) && s.reqs[b].pc.Served? ==> s.reqs[a].pc.inode != s.reqs[b].pc.inode)
  {
    RunOk(c, boot, steps);
    var s := Run(c, boot, steps);
    assert RequestOk(c, s.fs, s.published, s.reqs[a]);
    assert RequestOk(c, s.fs, s.published, s.reqs[b]);
    if Leads(s.reqs[b].pc) && s.reqs[a].hash == s.reqs[b].hash {
      OneLeader(s, a, b);
    }
  }

  /** In every run, what is renamed into place has the size that was asked for and the content that the name says. */
  lemma PublishesWhole(c: Config, boot: State, steps: seq<Step>, id: nat)
    requires Boot(boot)
    requires var s := Run(c, boot, steps); id in s.reqs && s.reqs[id].pc.Renaming?
    ensures var s := Run(c, boot, steps);
            var h, fs := s.reqs[id].hash, Next(c, s, Rename(id, false)).fs;
            && Final(h) in fs.dir && fs.dir[Final(h)] in fs.data
            && |fs.data[fs.dir[Final(h)]]| == s.reqs[id].size && c.H(fs.data[fs.dir[Final(h)]]) == h
  {
    RunOk(c, boot, steps);
    var s := Run(c, boot, steps);
    assert RequestOk(c, s.fs, s.published, s.reqs[id]);
  }

  /** Nobody waits in vain: the leader that a follower waits for is inside the fetch of the same hash. */
  lemma FollowersHaveLeaders(c: Config, boot: State, steps: seq<Step>, id: nat)
    requires Boot(boot)
    requires var s := Run(c, boot, steps); id in s.reqs && s.reqs[id].pc.Following?
    ensures var s := Run(c, boot, steps);
            var leader := s.reqs[id].pc.leader;
            leader in s.reqs && s.reqs[leader].hash == s.reqs[id].hash && Leads(s.reqs[leader].pc)
  {
    RunOk(c, boot, steps);
  }

  /** A step neither moves a served request nor changes the content of its inode. */
  /** The step may change the content of the inode. */
  predicate Writing(s: State, step: Step, inode: nat) {
    step.id in s.reqs &&
    var req := s.reqs[step.id];
    || (req.pc.Copying? && req.pc.inode == inode)
    || (Tmp(req.hash) in s.fs.dir && s.fs.dir[Tmp(req.hash)] == inode)
  }

  lemma InodeKept(c: Config, s: State, step: Step, inode: nat)
    requires inode in s.fs.data && !Writing(s, step, inode)
    ensures inode in Next(c, s, step).fs.data && Next(c, s, step).fs.data[inode] == s.fs.data[inode]
  {
  }

  lemma StaysServed(c: Config, s: State, step: Step, id: nat)
    requires id in s.reqs && s.reqs[id].pc.Served?
    ensures id in Next(c, s, step).reqs && Next(c, s, step).reqs[id] == s.reqs[id]
  {
  }

  lemma ServedStep(c: Config, s: State, step: Step, id: nat)
    requires Inv(c, s) && id in s.reqs && s.reqs[id].pc.Served?
    ensures var s' := Next(c, s, step);
            var inode := s.reqs[id].pc.inode;
            id in s'.reqs && s'.reqs[id] == s.reqs[id] && inode in s.fs.data
            && inode in s'.fs.data && s'.fs.data[inode] == s.fs.data[inode]
  {
    assert RequestOk(c, s.fs, s.published, s.reqs[id]);
    if step.id in s.reqs {
      assert RequestOk(c, s.fs, s.published, s.reqs[step.id]);
    }
    InodeKept(c, s, step, s.reqs[id].pc.inode);
    StaysServed(c, s, step, id);
  }

  /** What a reader was handed does not change under it, whatever the cache does afterwards. */
  lemma {:induction false} ServedStable(c: Config, s: State, steps: seq<Step>, id: nat)
    requires Inv(c, s) && id in s.reqs && s.reqs[id].pc.Served?
    ensures var s' := Run(c, s, steps);
            var inode := s.reqs[id].pc.inode;
            id in s'.reqs && s'.reqs[id] == s.reqs[id] && inode in s.fs.data
            && inode in s'.fs.data && s'.fs.data[inode] == s.fs.data[inode]
    decreases |steps|
  {
    if steps == [] {
      assert RequestOk(c, s.fs, s.published, s.reqs[id]);
    } else {
      ServedStep(c, s, steps[0], id);
      NextOk(c, s, steps[0]);
      ServedStable(c, Next(c, s, steps[0]), steps[1..], id);
    }
  }

  // ----- a miss is served

  lemma {:induction false} RunConcat(c: Config, s: State, a: seq<Step>, b: seq<Step>)
    ensures Run(c, s, a + b) == Run(c, Run(c, s, a), b)
    decreases |a|
  {
    if a == [] {
      assert a + b == b;
    } else {
      assert (a + b)[0] == a[0] && (a + b)[1..] == a[1..] + b;
      RunConcat(c, Next(c, s, a[0]), a[1..], b);
    }
  }

  lemma RunOne(c: Config, s: State, step: Step)
    ensures Run(c, s, [step]) == Next(c, s, step)
  {
    assert [step][1..] == [];
  }

  /** The request `id` for `h` stands at `pc`. */
  predicate Stands(s: State, id: nat, h: Hash, size: nat, pc: Pc) {
    id in s.reqs && s.reqs[id] == Request(h, size, pc)
  }

  /** The steps of a miss up to the new temporary file. */
  function MissSteps(id: nat, h: Hash, size: nat, inode: nat): seq<Step> {
    [Arrive(id, h, size), Look(id), Join(id), Look(id)] + [RemoveTmp(id, false), Create(id, inode, false)]
  }

  lemma Misses(c: Config, s: State, id: nat, h: Hash, size: nat)
    requires id !in s.reqs && h !in Entries(s.lru) && h !in s.flight
    ensures var s' := Run(c, s, [Arrive(id, h, size), Look(id), Join(id), Look(id)]);
            Stands(s', id, h, size, Removing) && s'.fs == s.fs && s'.lru == s.lru
  {
    var s1 := Next(c, s, Arrive(id, h, size));
    var s2 := Next(c, s1, Look(id));
    RunTwo(c, s, [Arrive(id, h, size), Look(id), Join(id), Look(id)]);
    RunTwo(c, s2, [Join(id), Look(id)]);
    assert [Arrive(id, h, size), Look(id), Join(id), Look(id)][2..] == [Join(id), Look(id)];
    assert Stands(s2, id, h, size, Joining);
  }

  lemma Creates(c: Config, s: State, id: nat, h: Hash, size: nat, inode: nat)
    requires Stands(s, id, h, size, Removing) && inode !in s.fs.data
    ensures var s' := Run(c, s, [RemoveTmp(id, false), Create(id, inode, false)]);
            Stands(s', id, h, size, Copying(inode, [])) && s'.lru == s.lru
            && Tmp(h) in s'.fs.dir && s'.fs.dir[Tmp(h)] == inode && inode in s'.fs.data && s'.fs.data[inode] == []
  {
    RunTwo(c, s, [RemoveTmp(id, false), Create(id, inode, false)]);
  }

  function Copies(id: nat, chunks: seq<seq<Byte>>): (steps: seq<Step>)
    ensures |steps| == |chunks|
  {
    seq(|chunks|, i requires 0 <= i < |chunks| => Copy(id, chunks[i]))
  }

  /** The temporary file holds exactly what has been hashed. */
  predicate Downloading(s: State, id: nat, h: Hash, size: nat, inode: nat, content: seq<Byte>) {
    && Stands(s, id, h, size, Copying(inode, content))
    && Tmp(h) in s.fs.dir && s.fs.dir[Tmp(h)] == inode && inode in s.fs.data && s.fs.data[inode] == content
  }

  lemma {:induction false} Downloads(c: Config, s: State, id: nat, h: Hash, size: nat, inode: nat, content: seq<Byte>,
                                     chunks: seq<seq<Byte>>)
    requires Downloading(s, id, h, size, inode, content)
    ensures var s' := Run(c, s, Copies(id, chunks));
            Downloading(s', id, h, size, inode, content + Concat(chunks)) && s'.lru == s.lru
    decreases |chunks|
  {
    if chunks == [] {
      assert content + Concat(chunks) == content;
    } else {
      var s1 := Next(c, s, Copy(id, chunks[0]));
      assert s1.fs.data[inode] == content + chunks[0];
      assert Copies(id, chunks)[1..] == Copies(id, chunks[1..]);
      Downloads(c, s1, id, h, size, inode, content + chunks[0], chunks[1..]);
      assert content + Concat(chunks) == content + chunks[0] + Concat(chunks[1..]);
    }
  }

  lemma Publishes(c: Config, s: State, id: nat, h: Hash, size: nat, inode: nat, content: seq<Byte>)
    requires Downloading(s, id, h, size, inode, content) && |content| == size && c.H(content) == h
    ensures var s' := Run(c, s, [CopyEnds(id, false), Verify(id)] + [Rename(id, false)]);
            Stands(s', id, h, size, Booking) && s'.lru == s.lru
            && Final(h) in s'.fs.dir && s'.fs.dir[Final(h)] == inode && inode in s'.fs.data
            && s'.fs.data[inode] == content
  {
    RunConcat(c, s, [CopyEnds(id, false), Verify(id)], [Rename(id, false)]);
    RunTwo(c, s, [CopyEnds(id, false), Verify(id)]);
    RunOne(c, Run(c, s, [CopyEnds(id, false), Verify(id)]), Rename(id, false));
  }

  /** The file of `h` is in place and in the index. */
  ghost predicate Cached(s: State, h: Hash, inode: nat, content: seq<Byte>) {
    && h in Entries(s.lru) && Final(h) in s.fs.dir && s.fs.dir[Final(h)] == inode
    && inode in s.fs.data && s.fs.data[inode] == content
  }

  lemma Books(c: Config, s: State, id: nat, h: Hash, size: nat, inode: nat, content: seq<Byte>, kept: set<Hash>)
    requires Stands(s, id, h, size, Booking) && (c.maxBytes <= 0 || size <= c.maxBytes)
    requires Final(h) in s.fs.dir && s.fs.dir[Final(h)] == inode && inode in s.fs.data && s.fs.data[inode] == content
    ensures var s' := Next(c, s, Book(id, kept)); Stands(s', id, h, size, Finishing(true)) && Cached(s', h, inode, content)
  {
    StoreExact(s.lru, Entry(h, size, Final(h)), c.maxBytes);
    assert h in Entries(After(s.lru, Store(Entry(h, size, Final(h))), c.maxBytes));
  }

  /** A request that looks for a cached file, before or after a miss, is served it. */
  lemma HitServes(c: Config, s: State, id: nat, h: Hash, size: nat, stage: Stage, inode: nat, content: seq<Byte>)
    requires Stands(s, id, h, size, Looking(stage)) && stage != Recheck && Cached(s, h, inode, content)
    ensures var s' := Run(c, s, [Look(id), OpenFile(id, false)]);
            Stands(s', id, h, size, Served(inode)) && inode in s'.fs.data && s'.fs.data[inode] == content
  {
    RunTwo(c, s, [Look(id), OpenFile(id, false)]);
  }

  /** The leader's success reaches itself and every follower: each is sent to look again. */
  lemma Releases(c: Config, s: State, leader: nat, id: nat, h: Hash, size: nat, inode: nat, content: seq<Byte>)
    requires leader in s.reqs && s.reqs[leader].pc == Finishing(true) && Cached(s, h, inode, content)
    requires id in s.reqs && s.reqs[id].hash == h && s.reqs[id].size == size
    requires id == leader || s.reqs[id].pc == Following(leader)
    ensures var s' := Next(c, s, Finish(leader));
            Stands(s', id, h, size, Looking(Reopen)) && Cached(s', h, inode, content)
  {
  }

  /** A request that waits for a leader which succeeds is served what the leader fetched. */
  lemma FollowerServed(c: Config, s: State, leader: nat, id: nat, h: Hash, size: nat, inode: nat, content: seq<Byte>)
    requires leader in s.reqs && s.reqs[leader].pc == Finishing(true) && Cached(s, h, inode, content)
    requires Stands(s, id, h, size, Following(leader))
    ensures var s' := Run(c, s, [Finish(leader)] + [Look(id), OpenFile(id, false)]);
            Stands(s', id, h, size, Served(inode)) && inode in s'.fs.data && s'.fs.data[inode] == content
  {
    Releases(c, s, leader, id, h, size, inode, content);
    RunConcat(c, s, [Finish(leader)], [Look(id), OpenFile(id, false)]);
    RunOne(c, s, Finish(leader));
    HitServes(c, Next(c, s, Finish(leader)), id, h, size, Reopen, inode, content);
  }

  /** All steps of a miss: nothing fails, and the download comes in the given chunks. */
  function FetchSteps(id: nat, h: Hash, size: nat, inode: nat, chunks: seq<seq<Byte>>, kept: set<Hash>): seq<Step> {
    MissSteps(id, h, size, inode) + Copies(id, chunks) + ([CopyEnds(id, false), Verify(id)] + [Rename(id, false)])
    + [Book(id, kept)]
  }

  lemma Fetches(c: Config, s: State, id: nat, h: Hash, size: nat, inode: nat, chunks: seq<seq<Byte>>, kept: set<Hash>)
    requires id !in s.reqs && h !in Entries(s.lru) && h !in s.flight && inode !in s.fs.data
    requires |Concat(chunks)| == size && c.H(Concat(chunks)) == h && (c.maxBytes <= 0 || size <= c.maxBytes)
    ensures var s' := Run(c, s, FetchSteps(id, h, size, inode, chunks, kept));
            Stands(s', id, h, size, Finishing(true)) && Cached(s', h, inode, Concat(chunks))
  {
    var a, b := MissSteps(id, h, size, inode), Copies(id, chunks);
    var d := [CopyEnds(id, false), Verify(id)] + [Rename(id, false)];
    RunConcat(c, s, [Arrive(id, h, size), Look(id), Join(id), Look(id)],
              [RemoveTmp(id, false), Create(id, inode, false)]);
    Misses(c, s, id, h, size);
    Creates(c, Run(c, s, [Arrive(id, h, size), Look(id), Join(id), Look(id)]), id, h, size, inode);
    RunConcat(c, s, a, b);
    Downloads(c, Run(c, s, a), id, h, size, inode, [], chunks);
    assert [] + Concat(chunks) == Concat(chunks);
    RunConcat(c, s, a + b, d);
    Publishes(c, Run(c, s, a + b), id, h, size, inode, Concat(chunks));
    RunConcat(c, s, a + b + d, [Book(id, kept)]);
    RunOne(c, Run(c, s, a + b + d), Book(id, kept));
    Books(c, Run(c, s, a + b + d), id, h, size, inode, Concat(chunks), kept);
  }

  /** A miss is served: from any state without an entry or a fetch for the hash (at boot, say, whatever files are left
      over), a request whose download has the right content and fits the cache, in whatever chunks it comes, and
      with no step failing, ends with that content. */
  lemma MissServed(c: Config, s: State, id: nat, h: Hash, size: nat, inode: nat, chunks: seq<seq<Byte>>, kept: set<Hash>)
    requires id !in s.reqs && h !in Entries(s.lru) && h !in s.flight && inode !in s.fs.data
    requires |Concat(chunks)| == size && c.H(Concat(chunks)) == h && (c.maxBytes <= 0 || size <= c.maxBytes)
    ensures var steps := FetchSteps(id, h, size, inode, chunks, kept) + [Finish(id)] + [Look(id), OpenFile(id, false)];
            var s' := Run(c, s, steps);
            Stands(s', id, h, size, Served(inode)) && inode in s'.fs.data && s'.fs.data[inode] == Concat(chunks)
  {
    var fetch := FetchSteps(id, h, size, inode, chunks, kept);
    Fetches(c, s, id, h, size, inode, chunks, kept);
    var s1 := Run(c, s, fetch);
    Releases(c, s1, id, id, h, size, inode, Concat(chunks));
    RunConcat(c, s, fetch, [Finish(id)]);
    RunOne(c, s1, Finish(id));
    RunConcat(c, s, fetch + [Finish(id)], [Look(id), OpenFile(id, false)]);
    HitServes(c, Next(c, s1, Finish(id)), id, h, size, Reopen, inode, Concat(chunks));
  }

  // ----- a bad download is given up

  /** The step ends a `Put` in failure: the copy fails, or it is too short or too long, or cannot be flushed, or has
      another hash, or cannot be renamed. */
  predicate Spoils(c: Config, req: Request, id: nat, step: Step) {
    match step
    case CopyFails(i, _) => i == id && req.pc.Copying?
    case CopyEnds(i, syncFails) => i == id && req.pc.Copying? && (syncFails || |req.pc.hashed| != req.size)
    case Verify(i) => i == id && req.pc.Verifying? && c.H(req.pc.hashed) != req.hash
    case Rename(i, fails) => i == id && req.pc.Renaming? && fails
    case _ => false
  }

  lemma Spoiled(c: Config, s: State, id: nat, step: Step)
    requires id in s.reqs && Spoils(c, s.reqs[id], id, step)
    ensures var s' := Next(c, s, step);
            Stands(s', id, s.reqs[id].hash, s.reqs[id].size, Cleaning) && s'.fs.dir == s.fs.dir
            && s'.reqs == s.reqs[id := s'.reqs[id]] && s'.lru == s.lru && s'.published == s.published
  {
  }

  /** After such a step nothing is published or listed, the temporary file is removed, and the request and all who wait
      for it fail. */
  lemma FailedPut(c: Config, s: State, id: nat, step: Step, other: nat)
    requires id in s.reqs && Spoils(c, s.reqs[id], id, step) && other in s.reqs
    requires other == id || s.reqs[other].pc == Following(id)
    ensures var s' := Run(c, s, [step, Clean(id, false)] + [Finish(id)]);
      && other in s'.reqs && s'.reqs[other].pc == Failed
      && s'.fs.dir == s.fs.dir - {Tmp(s.reqs[id].hash)} && s'.lru == s.lru && s'.published == s.published
  {
    Spoiled(c, s, id, step);
    RunConcat(c, s, [step, Clean(id, false)], [Finish(id)]);
    RunTwo(c, s, [step, Clean(id, false)]);
    RunOne(c, Next(c, Next(c, s, step), Clean(id, false)), Finish(id));
  }

  // ----- without the coalescer

  function OneByte(content: seq<Byte>): Hash {
    if content == [1] then "good" else "bad"
  }

  /** Two `Put`s of one hash at once, as if the coalescer had let both through. */
  const TWO_PUTS: State := State(Fs(map[], map[]), [], map["good" := 0],
    map[0 := Request("good", 1, Creating), 1 := Request("good", 1, Creating)], {})

  /** One `Put` writes and verifies good content; the other creates its temporary file; the first renames. */
  const OVERLAP: seq<Step> :=
    [Create(0, 0, false), Copy(0, [1]), CopyEnds(0, false), Verify(0), Create(1, 1, false), Rename(0, false)]

  const RENAMED: State := State(Fs(map[Final("good") := 0], map[0 := []]), [], map["good" := 0],
    map[0 := Request("good", 1, Booking), 1 := Request("good", 1, Copying(0, []))], {"good"})

  /** The first `Put` enters its file into the index, and a third request opens it. */
  const SERVE: seq<Step> := [Book(0, {}), Arrive(2, "good", 1), Look(2), OpenFile(2, false)]

  lemma RunTwo(c: Config, s: State, steps: seq<Step>)
    requires |steps| >= 2
    ensures Run(c, s, steps) == Run(c, Next(c, Next(c, s, steps[0]), steps[1]), steps[2..])
  {
    assert steps[1..][1..] == steps[2..];
  }

  const VERIFIED: State := State(Fs(map[Tmp("good") := 0], map[0 := [1]]), [], map["good" := 0],
    map[0 := Request("good", 1, Renaming(0, [1])), 1 := Request("good", 1, Creating)], {})

  const COPIED: State := State(Fs(map[Tmp("good") := 0], map[0 := [1]]), [], map["good" := 0],
    map[0 := Request("good", 1, Copying(0, [1])), 1 := Request("good", 1, Creating)], {})

  lemma FirstCopies(c: Config)
    requires c == Config(OneByte, 0)
    ensures Next(c, Next(c, TWO_PUTS, Create(0, 0, false)), Copy(0, [1])) == COPIED
  {
    var s1 := Next(c, TWO_PUTS, Create(0, 0, false));
    assert s1.fs == Fs(map[Tmp("good") := 0], map[0 := []]);
    var s2 := Next(c, s1, Copy(0, [1]));
    assert s2.fs.data[0] == [1];
    assert s2.reqs[0].pc == Copying(0, [1]);
    assert s2.fs == COPIED.fs && s2.reqs == COPIED.reqs;
  }

  lemma FirstVerifies(c: Config)
    requires c == Config(OneByte, 0)
    ensures Next(c, Next(c, COPIED, CopyEnds(0, false)), Verify(0)) == VERIFIED
  {
    assert c.H([1]) == OneByte([1]) == "good";
    assert Next(c, Next(c, COPIED, CopyEnds(0, false)), Verify(0)).reqs == VERIFIED.reqs;
  }

  lemma FirstPut(c: Config)
    requires c == Config(OneByte, 0)
    ensures Run(c, TWO_PUTS, OVERLAP) == Run(c, VERIFIED, OVERLAP[4..])
  {
    FirstCopies(c);
    FirstVerifies(c);
    RunTwo(c, TWO_PUTS, OVERLAP);
    RunTwo(c, COPIED, OVERLAP[2..]);
    assert OVERLAP[2..][2..] == OVERLAP[4..];
  }

  const TRUNCATED: State := State(Fs(map[Tmp("good") := 0], map[0 := []]), [], map["good" := 0],
    map[0 := Request("good", 1, Renaming(0, [1])), 1 := Request("good", 1, Copying(0, []))], {})

  lemma SecondCreates(c: Config)
    requires c == Config(OneByte, 0)
    ensures Next(c, VERIFIED, Create(1, 1, false)) == TRUNCATED
  {
    var s := Next(c, VERIFIED, Create(1, 1, false));
    assert s.fs == TRUNCATED.fs && s.reqs == TRUNCATED.reqs;
  }

  lemma FirstRenames(c: Config)
    requires c == Config(OneByte, 0)
    ensures Next(c, TRUNCATED, Rename(0, false)) == RENAMED
  {
    var s := Next(c, TRUNCATED, Rename(0, false));
    assert s.fs.dir == RENAMED.fs.dir && s.reqs == RENAMED.reqs;
  }

  lemma OverlapRun(c: Config)
    requires c == Config(OneByte, 0)
    ensures Run(c, TWO_PUTS, OVERLAP) == RENAMED
  {
    FirstPut(c);
    SecondCreates(c);
    FirstRenames(c);
    RunTwo(c, VERIFIED, OVERLAP[4..]);
  }

  const LISTED: State := State(RENAMED.fs, [Entry("good", 1, Final("good"))], RENAMED.flight,
    RENAMED.reqs[0 := Request("good", 1, Finishing(true))][2 := Request("good", 1, Looking(First))], {"good"})

  lemma FirstBooks(c: Config)
    requires c == Config(OneByte, 0)
    ensures Next(c, Next(c, RENAMED, Book(0, {})), Arrive(2, "good", 1)) == LISTED
  {
    var s1 := Next(c, RENAMED, Book(0, {}));
    assert s1.lru == [Entry("good", 1, Final("good"))] && s1.fs.dir == RENAMED.fs.dir;
  }

  lemma ThirdOpens(c: Config)
    requires c == Config(OneByte, 0)
    ensures var s := Next(c, Next(c, LISTED, Look(2)), OpenFile(2, false));
            2 in s.reqs && s.reqs[2] == Request("good", 1, Served(0)) && s.fs.data == map[0 := []]
  {
    assert LISTED.lru[0] in LISTED.lru && "good" in Entries(LISTED.lru);
    assert Next(c, LISTED, Look(2)).reqs[2].pc == Opening(First);
  }

  lemma ServeRun(c: Config)
    requires c == Config(OneByte, 0)
    ensures var s := Run(c, RENAMED, SERVE);
            2 in s.reqs && s.reqs[2] == Request("good", 1, Served(0)) && s.fs.data == map[0 := []]
  {
    FirstBooks(c);
    ThirdOpens(c);
    RunTwo(c, RENAMED, SERVE);
    RunTwo(c, LISTED, SERVE[2..]);
  }

  /** The coalescer is needed: two concurrent `Put`s of one hash share the temporary file, the second
      truncates what the first has verified, and a reader is handed content with another hash. */
  lemma CoalescerNeeded()
    ensures var c := Config(OneByte, 0);
            var s := Run(c, Run(c, TWO_PUTS, OVERLAP), SERVE);
            2 in s.reqs && s.reqs[2] == Request("good", 1, Served(0)) && 0 in s.fs.data
            && c.H(s.fs.data[0]) != "good"
  {
    var c := Config(OneByte, 0);
    OverlapRun(c);
    ServeRun(c);
    assert c.H([]) == OneByte([]) == "bad";
  }
}
