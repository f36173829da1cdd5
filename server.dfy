/**
 * The consensus state of a replica, `DistributedServer` in
 * backend/distributed/server.py. Every handler runs under the replica's
 * lock in the source, so each is one method here. Replies from peers,
 * the set of peers known to be down, timer expiry, fresh ids and clock
 * readings are parameters.
 */
module Consensus {
  import opened Records
  import Database
  import Rules
  import Logic
  import opened Commands

  datatype Role = Follower | Candidate | Leader

  /** `LogEntry`: the command is held decoded. */
  datatype LogEntry = LogEntry(term: nat, index: int, command: Command, timestamp: Timestamp)

  datatype VoteRequest = VoteRequest(serverId: string, term: nat, lastLogIndex: int, lastLogTerm: nat)

  datatype VoteResponse = VoteResponse(serverId: string, term: nat, voteGranted: bool)

  datatype HeartbeatRequest = HeartbeatRequest(leaderId: string, term: nat, commitIndex: int, entries: seq<LogEntry>)

  datatype HeartbeatResponse = HeartbeatResponse(serverId: string, term: nat, success: bool, lastApplied: int)

  // ---------------------------------------------------------------------
  // Pure helpers
  // ---------------------------------------------------------------------

  /** `_is_log_up_to_date`: a later last term wins; with equal last terms the longer log wins. */
  predicate UpToDate(candidateLastTerm: nat, candidateLastIndex: int, lastTerm: nat, lastIndex: int)
    ensures UpToDate(candidateLastTerm, candidateLastIndex, lastTerm, lastIndex) ==> candidateLastTerm >= lastTerm
  {
    if candidateLastTerm != lastTerm then candidateLastTerm > lastTerm else candidateLastIndex >= lastIndex
  }

  /** Of any two logs, at least one is up to date with respect to the other. */
  lemma UpToDateTotal(term1: nat, index1: int, term2: nat, index2: int)
    ensures UpToDate(term1, index1, term2, index2) || UpToDate(term2, index2, term1, index1)
  {
  }

  lemma UpToDateTransitive(term1: nat, index1: int, term2: nat, index2: int, term3: nat, index3: int)
    requires UpToDate(term1, index1, term2, index2) && UpToDate(term2, index2, term3, index3)
    ensures UpToDate(term1, index1, term3, index3)
  {
  }

  /** The term of the last entry, 0 for an empty log. */
  function LastLogTerm(log: seq<LogEntry>): nat {
    if |log| == 0 then 0 else log[|log| - 1].term
  }

  /** `count > (len(peers) + 1) / 2` with Python's true division, over the integers. */
  predicate Majority(count: int, peerCount: nat) {
    2 * count > peerCount + 1
  }

  /** `d.get(key, default)`. */
  function GetOr(m: map<string, int>, key: string, default: int): int {
    if key in m then m[key] else default
  }

  function Max(a: int, b: int): int {
    if a >= b then a else b
  }

  function Min(a: int, b: int): int {
    if a <= b then a else b
  }

  /** The peers whose `match_index` (default -1) is at least `n`. */
  function CountAtLeast(peers: seq<string>, matchIndex: map<string, int>, n: int): (c: nat)
    ensures c <= |peers|
    decreases |peers|
  {
    if peers == [] then 0
    else CountAtLeast(peers[..|peers| - 1], matchIndex, n) + (if GetOr(matchIndex, peers[|peers| - 1], -1) >= n then 1 else 0)
  }

  /** Fewer peers hold a higher index. */
  lemma {:induction false} CountAtLeastAntitone(peers: seq<string>, matchIndex: map<string, int>, n: int, m: int)
    requires n <= m
    ensures CountAtLeast(peers, matchIndex, m) <= CountAtLeast(peers, matchIndex, n)
    decreases |peers|
  {
    if peers != [] {
      CountAtLeastAntitone(peers[..|peers| - 1], matchIndex, n, m);
    }
  }

  /** When every peer holds index `n`, all of them are counted. */
  lemma {:induction false} CountAtLeastAll(peers: seq<string>, matchIndex: map<string, int>, n: int)
    requires forall k | 0 <= k < |peers| :: GetOr(matchIndex, peers[k], -1) >= n
    ensures CountAtLeast(peers, matchIndex, n) == |peers|
    decreases |peers|
  {
    if peers != [] {
      CountAtLeastAll(peers[..|peers| - 1], matchIndex, n);
    }
  }

  /** The dictionary after `d[k] = value` for every `k` in `keys`, in order. */
  function SetAll(m: map<string, int>, keys: seq<string>, value: int): (r: map<string, int>)
    ensures r.Keys == m.Keys + set k | k in keys
    ensures forall k | k in r :: r[k] == if k in keys then value else m[k]
    decreases |keys|
  {
    if keys == [] then m
    else
      var prefix := keys[..|keys| - 1];
      assert forall k :: k in keys <==> k in prefix || k == keys[|keys| - 1] by {
        assert keys == prefix + [keys[|keys| - 1]];
      }
      SetAll(m, prefix, value)[keys[|keys| - 1] := value]
  }

  /** Entry `n` may be committed: it is from the leader's term and a majority (the leader included) holds it. */
  predicate CanCommit(log: seq<LogEntry>, term: nat, peers: seq<string>, matchIndex: map<string, int>, n: int)
    requires 0 <= n < |log|
  {
    log[n].term == term && Majority(1 + CountAtLeast(peers, matchIndex, n), |peers|)
  }

  /** Every entry of the leader's term before a committable one is committable too. */
  lemma CanCommitEarlier(log: seq<LogEntry>, term: nat, peers: seq<string>, matchIndex: map<string, int>, m: int, n: int)
    requires 0 <= m <= n < |log|
    requires CanCommit(log, term, peers, matchIndex, n) && log[m].term == term
    ensures CanCommit(log, term, peers, matchIndex, m)
  {
    CountAtLeastAntitone(peers, matchIndex, m, n);
  }

  /** An entry of the leader's term that every peer holds is committable. */
  lemma CanCommitWhenAllHold(log: seq<LogEntry>, term: nat, peers: seq<string>, matchIndex: map<string, int>, n: int)
    requires 0 <= n < |log| && log[n].term == term
    requires forall k | 0 <= k < |peers| :: GetOr(matchIndex, peers[k], -1) >= n
    ensures CanCommit(log, term, peers, matchIndex, n)
  {
    CountAtLeastAll(peers, matchIndex, n);
  }

  /** The reply of a write method on a replica that is not the leader. */
  function NotLeaderReply(leaderId: Option<string>): (r: Rules.Reply)
    ensures !r.success && r.payload == None
    ensures leaderId.Some? && leaderId.value != "" ==> r.message == "Not the leader. Current leader: " + leaderId.value
    ensures leaderId == None || leaderId == Some("") ==> r.message == "No leader available. Try again later."
  {
    if leaderId.Some? && leaderId.value != "" then Rules.Fail("Not the leader. Current leader: " + leaderId.value)
    else Rules.Fail("No leader available. Try again later.")
  }

  // ---------------------------------------------------------------------
  // The replica
  // ---------------------------------------------------------------------

  class DistributedServer {
    const serverId: string
    const peers: seq<string>
    const logic: Logic.BusinessLogic

    var state: Role
    var currentTerm: nat
    var votedFor: Option<string>
    var leaderId: Option<string>
    var votesReceived: nat
    var log: seq<LogEntry>
    var commitIndex: int
    var lastApplied: int
    var nextIndex: map<string, int>
    var matchIndex: map<string, int>

    /**
     * Applied entries are committed entries of the log, each entry knows its
     * position, no entry is from a future term, the peer indices point into
     * the log, a candidate or leader has voted for itself, a leader names
     * itself as leader, and the store behind the business rules is
     * consistent.
     */
    ghost predicate Valid()
      reads this, logic.db
    {
      && -1 <= lastApplied <= commitIndex < |log|
      && (forall i | 0 <= i < |log| :: log[i].index == i && log[i].term <= currentTerm)
      && (forall p | p in nextIndex :: 0 <= nextIndex[p] <= |log|)
      && (forall p | p in matchIndex :: -1 <= matchIndex[p] < |log|)
      && (state != Follower ==> votedFor == Some(serverId))
      && (state == Candidate ==> votesReceived >= 1)
      && (state == Leader ==> leaderId == Some(serverId))
      && logic.db.Valid()
      && Rules.Consistent(logic.db.Snapshot())
    }

    /** The term never decreases, the log only grows, and the commit and apply indices never fall. */
    twostate predicate Progress()
      reads this
    {
      && old(currentTerm) <= currentTerm
      && old(log) <= log
      && old(commitIndex) <= commitIndex
      && old(lastApplied) <= lastApplied
    }

    function NextOf(peer: string): int
      reads this
    {
      GetOr(nextIndex, peer, 0)
    }

    function MatchOf(peer: string): int
      reads this
    {
      GetOr(matchIndex, peer, -1)
    }

    /** `__init__`: a follower at term 0 with an empty log, over the store found at `db_path`. */
    constructor (serverId: string, peers: seq<string>, db: Database.DatabaseInterface)
      requires db.Valid() && Rules.Consistent(db.Snapshot())
      ensures Valid()
      ensures this.serverId == serverId && this.peers == peers && logic.db == db && fresh(logic)
      ensures state == Follower && currentTerm == 0 && votedFor == None && leaderId == None && votesReceived == 0
      ensures log == [] && commitIndex == -1 && lastApplied == -1
      ensures nextIndex == map[] && matchIndex == map[]
    {
      this.serverId := serverId;
      this.peers := peers;
      logic := new Logic.BusinessLogic(db);
      state := Follower;
      currentTerm := 0;
      votedFor := None;
      leaderId := None;
      votesReceived := 0;
      log := [];
      commitIndex := -1;
      lastApplied := -1;
      nextIndex := map[];
      matchIndex := map[];
    }

    /**
     * The loop over the peers in `start` (next index 0) and in
     * `_become_leader` (next index the log length): every peer gets `next`
     * as the index to send from and -1 as the index known to match.
     */
    method ResetPeerIndices(next: int)
      requires Valid()
      requires 0 <= next <= |log|
      modifies this`nextIndex, this`matchIndex
      ensures Valid()
      ensures nextIndex == SetAll(old(nextIndex), peers, next)
      ensures matchIndex == SetAll(old(matchIndex), peers, -1)
    {
      var i := 0;
      while i < |peers|
        invariant 0 <= i <= |peers|
        invariant nextIndex == SetAll(old(nextIndex), peers[..i], next)
        invariant matchIndex == SetAll(old(matchIndex), peers[..i], -1)
      {
        assert peers[..i + 1][..i] == peers[..i];
        nextIndex := nextIndex[peers[i] := next];
        matchIndex := matchIndex[peers[i] := -1];
        i := i + 1;
      }
      assert peers[..i] == peers;
    }

    /** `_become_follower`: the callers pass a term at least the current one. */
    method BecomeFollower(term: nat)
      requires Valid()
      requires term >= currentTerm
      modifies this`state, this`currentTerm, this`votedFor
      ensures Valid() && Progress()
      ensures state == Follower && currentTerm == term && votedFor == None
    {
      state := Follower;
      currentTerm := term;
      votedFor := None;
    }

    /** `_become_leader`: every peer is sent entries from the end of the log, and none is known to match. */
    method BecomeLeader()
      requires Valid()
      requires state == Candidate
      modifies this`state, this`leaderId, this`nextIndex, this`matchIndex
      ensures Valid() && Progress()
      ensures state == Leader && leaderId == Some(serverId)
      ensures nextIndex == SetAll(old(nextIndex), peers, |log|)
      ensures matchIndex == SetAll(old(matchIndex), peers, -1)
    {
      state := Leader;
      leaderId := Some(serverId);
      ResetPeerIndices(|log|);
    }

    /**
     * `_start_election`: a new term, a vote for itself, and leadership at
     * once when there are peers and all of them are known to be down. With
     * no peers at all the replica stays a candidate.
     */
    method StartElection(downPeers: set<string>)
      requires Valid()
      modifies this`state, this`currentTerm, this`votedFor, this`votesReceived, this`leaderId, this`nextIndex, this`matchIndex
      ensures Valid() && Progress()
      ensures currentTerm == old(currentTerm) + 1 && votedFor == Some(serverId) && votesReceived == 1
      ensures state == Leader <==> |peers| > 0 && forall p | p in peers :: p in downPeers
      ensures state != Leader ==>
        && state == Candidate && leaderId == old(leaderId)
        && nextIndex == old(nextIndex) && matchIndex == old(matchIndex)
      ensures state == Leader ==>
        && leaderId == Some(serverId)
        && nextIndex == SetAll(old(nextIndex), peers, |log|)
        && matchIndex == SetAll(old(matchIndex), peers, -1)
    {
      state := Candidate;
      currentTerm := currentTerm + 1;
      votedFor := Some(serverId);
      votesReceived := 1;
      var allPeersDown := true;
      var i := 0;
      while i < |peers|
        invariant 0 <= i <= |peers|
        invariant allPeersDown <==> forall k | 0 <= k < i :: peers[k] in downPeers
      {
        if peers[i] !in downPeers {
          allPeersDown := false;
          break;
        }
        i := i + 1;
      }
      if allPeersDown && |peers| > 0 {
        BecomeLeader();
      }
    }

    /** The election timer: a replica that is not the leader starts an election once its timeout has passed. */
    method ElectionTimerTick(timedOut: bool, downPeers: set<string>)
      requires Valid()
      modifies this`state, this`currentTerm, this`votedFor, this`votesReceived, this`leaderId, this`nextIndex, this`matchIndex
      ensures Valid() && Progress()
      ensures old(state) == Leader || !timedOut ==> unchanged(this)
      ensures old(state) != Leader && timedOut ==>
        && currentTerm == old(currentTerm) + 1 && votedFor == Some(serverId) && votesReceived == 1
        && (state == Leader <==> |peers| > 0 && forall p | p in peers :: p in downPeers)
        && (state != Leader ==>
              && state == Candidate && leaderId == old(leaderId)
              && nextIndex == old(nextIndex) && matchIndex == old(matchIndex))
        && (state == Leader ==>
              && leaderId == Some(serverId)
              && nextIndex == SetAll(old(nextIndex), peers, |log|)
              && matchIndex == SetAll(old(matchIndex), peers, -1))
    {
      if state != Leader && timedOut {
        StartElection(downPeers);
      }
    }

    /** The request a candidate sends: its id, its term and the position and term of its last entry. */
    function VoteRequestFor(): (req: VoteRequest)
      reads this
      ensures req.serverId == serverId && req.term == currentTerm
      ensures req.lastLogIndex == |log| - 1 && req.lastLogTerm == LastLogTerm(log)
    {
      VoteRequest(serverId, currentTerm, |log| - 1, LastLogTerm(log))
    }

    /**
     * The reply half of `_request_vote` for `peer`, one of the peers the
     * election asked. Only a candidate counts replies; a higher term sends
     * it back to follower; a granted vote is counted whatever term it was
     * cast in, and a majority makes it leader.
     */
    method HandleVoteReply(peer: string, reply: VoteResponse)
      requires Valid()
      requires peer in peers
      modifies this`state, this`currentTerm, this`votedFor, this`votesReceived, this`leaderId, this`nextIndex, this`matchIndex
      ensures Valid() && Progress()
      ensures old(state) != Candidate ==> unchanged(this)
      ensures old(state) == Candidate && reply.term > old(currentTerm) ==>
        state == Follower && currentTerm == reply.term && votedFor == None && votesReceived == old(votesReceived)
      ensures old(state) == Candidate && reply.term <= old(currentTerm) ==>
        && currentTerm == old(currentTerm)
        && votesReceived == old(votesReceived) + (if reply.voteGranted then 1 else 0)
        && votedFor == old(votedFor)
        && (state == Leader <==> reply.voteGranted && Majority(votesReceived, |peers|))
        && (state != Leader ==> state == Candidate)
      ensures old(state) == Candidate && state == Leader ==>
        && leaderId == Some(serverId)
        && nextIndex == SetAll(old(nextIndex), peers, |log|)
        && matchIndex == SetAll(old(matchIndex), peers, -1)
      ensures state != Leader ==> leaderId == old(leaderId) && nextIndex == old(nextIndex) && matchIndex == old(matchIndex)
    {
      if state != Candidate {
        return;
      }
      if reply.term > currentTerm {
        BecomeFollower(reply.term);
        return;
      }
      if reply.voteGranted {
        votesReceived := votesReceived + 1;
        if Majority(votesReceived, |peers|) {
          BecomeLeader();
        }
      }
    }

    /**
     * The last failed retry of `_request_vote` for `peer`, one of the peers
     * the election asked: a candidate whose other peers are all known to be
     * down becomes leader.
     */
    method HandleVotePeerDown(peer: string, downPeers: set<string>)
      requires Valid()
      requires peer in peers
      modifies this`state, this`leaderId, this`nextIndex, this`matchIndex
      ensures Valid() && Progress()
      ensures state == Leader <==>
        (old(state) == Leader || (old(state) == Candidate && forall p | p in peers :: p == peer || p in downPeers))
      ensures old(state) == state ==> unchanged(this)
      ensures old(state) != state ==>
        && leaderId == Some(serverId)
        && nextIndex == SetAll(old(nextIndex), peers, |log|)
        && matchIndex == SetAll(old(matchIndex), peers, -1)
    {
      var allPeersDown := true;
      var i := 0;
      while i < |peers|
        invariant 0 <= i <= |peers|
        invariant allPeersDown <==> forall k | 0 <= k < i :: peers[k] == peer || peers[k] in downPeers
      {
        if peers[i] !in downPeers && peers[i] != peer {
          allPeersDown := false;
          break;
        }
        i := i + 1;
      }
      if allPeersDown && state == Candidate {
        BecomeLeader();
      }
    }

    /**
     * The request `_send_append_entries` builds for `peer`: the leader's
     * term and commit index and every entry from the peer's next index on.
     */
    function HeartbeatFor(peer: string): (req: HeartbeatRequest)
      reads this, logic.db
      requires Valid()
      ensures req.leaderId == serverId && req.term == currentTerm && req.commitIndex == commitIndex
      ensures |req.entries| == Max(0, |log| - NextOf(peer))
      ensures log == log[..|log| - |req.entries|] + req.entries
      ensures forall k | 0 <= k < |req.entries| :: req.entries[k].index == NextOf(peer) + k
    {
      var next := NextOf(peer);
      var entries := if next < |log| then log[next..] else [];
      assert next < |log| ==> log == log[..next] + log[next..];
      HeartbeatRequest(serverId, currentTerm, commitIndex, entries)
    }

    /**
     * The reply half of `_send_append_entries`. `sent` are the entries the
     * request carried; the log has not shrunk since, so they are still in it.
     */
    method HandleHeartbeatReply(peer: string, sent: seq<LogEntry>, reply: HeartbeatResponse)
      requires Valid()
      requires forall k | 0 <= k < |sent| :: 0 <= sent[k].index < |log|
      modifies this`state, this`currentTerm, this`votedFor, this`nextIndex, this`matchIndex, this`commitIndex
      ensures Valid() && Progress()
      ensures old(state) != Leader ==> unchanged(this)
      ensures old(state) == Leader && reply.term > old(currentTerm) ==>
        state == Follower && currentTerm == reply.term && votedFor == None
        && nextIndex == old(nextIndex) && matchIndex == old(matchIndex) && commitIndex == old(commitIndex)
      ensures old(state) == Leader && reply.term <= old(currentTerm) ==>
        && state == Leader && currentTerm == old(currentTerm)
        && (!reply.success ==> nextIndex == old(nextIndex)[peer := Max(0, GetOr(old(nextIndex), peer, 0) - 1)]
                               && matchIndex == old(matchIndex) && commitIndex == old(commitIndex))
        && (reply.success && |sent| > 0 ==>
              nextIndex == old(nextIndex)[peer := sent[|sent| - 1].index + 1]
              && matchIndex == old(matchIndex)[peer := sent[|sent| - 1].index])
        && (reply.success && |sent| == 0 ==> nextIndex == old(nextIndex) && matchIndex == old(matchIndex))
        && (reply.success ==> CommitAdvanced(old(commitIndex)))
    {
      if state != Leader {
        return;
      }
      if reply.term > currentTerm {
        BecomeFollower(reply.term);
        return;
      }
      if reply.success {
        if |sent| > 0 {
          nextIndex := nextIndex[peer := sent[|sent| - 1].index + 1];
          matchIndex := matchIndex[peer := sent[|sent| - 1].index];
        }
        UpdateCommitIndex();
      } else {
        nextIndex := nextIndex[peer := Max(0, NextOf(peer) - 1)];
      }
    }

    /**
     * What `_update_commit_index` leaves on a leader: the commit index
     * moved from `before` to the first committable entry after it, or
     * stayed where it was because there is none.
     */
    predicate CommitAdvanced(before: int)
      reads this
      requires -1 <= before <= commitIndex < |log|
    {
      && (forall n | before < n < commitIndex :: !CanCommit(log, currentTerm, peers, matchIndex, n))
      && (commitIndex == before ==> forall n | before < n < |log| :: !CanCommit(log, currentTerm, peers, matchIndex, n))
      && (commitIndex > before ==> CanCommit(log, currentTerm, peers, matchIndex, commitIndex))
    }

    /**
     * `_update_commit_index`: only a leader commits, only an entry of its
     * own term, and only one a majority holds; the first such entry after
     * the commit index becomes the commit index.
     */
    method UpdateCommitIndex()
      requires Valid()
      modifies this`commitIndex
      ensures Valid() && Progress()
      ensures state != Leader ==> commitIndex == old(commitIndex)
      ensures state == Leader ==> CommitAdvanced(old(commitIndex))
    {
      if state != Leader {
        return;
      }
      var n := commitIndex + 1;
      while n < |log|
        invariant old(commitIndex) + 1 <= n <= |log|
        invariant commitIndex == old(commitIndex)
        invariant forall m | old(commitIndex) < m < n :: !CanCommit(log, currentTerm, peers, matchIndex, m)
      {
        if log[n].term == currentTerm {
          var count := 1;
          var i := 0;
          while i < |peers|
            invariant 0 <= i <= |peers|
            invariant count == 1 + CountAtLeast(peers[..i], matchIndex, n)
          {
            assert peers[..i + 1][..i] == peers[..i];
            if MatchOf(peers[i]) >= n {
              count := count + 1;
            }
            i := i + 1;
          }
          assert peers[..i] == peers;
          if Majority(count, |peers|) {
            commitIndex := n;
            break;
          }
        }
        n := n + 1;
      }
    }

    /**
     * `RequestVote`. A stale term is refused outright; a newer term first
     * turns the replica into a follower of that term. The vote goes to a
     * candidate whose log is up to date, if no other candidate has the
     * replica's vote in this term. A replica never changes its vote within a
     * term.
     */
    method RequestVote(req: VoteRequest) returns (resp: VoteResponse)
      requires Valid()
      modifies this`state, this`currentTerm, this`votedFor
      ensures Valid() && Progress()
      ensures resp.serverId == serverId && resp.term == currentTerm
      ensures req.term < old(currentTerm) ==> !resp.voteGranted && unchanged(this)
      ensures currentTerm == Max(old(currentTerm), req.term)
      ensures req.term > old(currentTerm) ==> state == Follower
      ensures req.term <= old(currentTerm) ==> state == old(state)
      ensures resp.voteGranted <==>
        && req.term >= old(currentTerm)
        && (req.term > old(currentTerm) || old(votedFor) == None || old(votedFor) == Some(req.serverId))
        && UpToDate(req.lastLogTerm, req.lastLogIndex, LastLogTerm(log), |log| - 1)
      ensures resp.voteGranted ==> votedFor == Some(req.serverId)
      ensures !resp.voteGranted ==> votedFor == (if req.term > old(currentTerm) then None else old(votedFor))
      ensures currentTerm == old(currentTerm) && old(votedFor).Some? ==> votedFor == old(votedFor)
    {
      if req.term < currentTerm {
        return VoteResponse(serverId, currentTerm, false);
      }
      if req.term > currentTerm {
        BecomeFollower(req.term);
      }
      var granted := false;
      if (votedFor == None || votedFor == Some(req.serverId)) && UpToDate(req.lastLogTerm, req.lastLogIndex, LastLogTerm(log), |log| - 1) {
        votedFor := Some(req.serverId);
        granted := true;
      }
      resp := VoteResponse(serverId, currentTerm, granted);
    }

    /**
     * `SendHeartbeat`. A stale term is refused; otherwise the replica
     * follows the sender at the sender's term (clearing its vote even when
     * the term is its own), raises its commit index towards the leader's
     * without passing its own last entry, and ignores the entries sent.
     */
    method SendHeartbeat(req: HeartbeatRequest) returns (resp: HeartbeatResponse)
      requires Valid()
      modifies this`state, this`currentTerm, this`votedFor, this`leaderId, this`commitIndex
      ensures Valid() && Progress()
      ensures resp.serverId == serverId && resp.term == currentTerm && resp.lastApplied == lastApplied
      ensures resp.success <==> req.term >= old(currentTerm)
      ensures !resp.success ==> unchanged(this)
      ensures resp.success ==>
        && state == Follower && currentTerm == req.term && votedFor == None && leaderId == Some(req.leaderId)
        && commitIndex == (if req.commitIndex > old(commitIndex) then Min(req.commitIndex, |log| - 1) else old(commitIndex))
      ensures log == old(log)
    {
      if req.term < currentTerm {
        return HeartbeatResponse(serverId, currentTerm, false, lastApplied);
      }
      BecomeFollower(req.term);
      leaderId := Some(req.leaderId);
      if req.commitIndex > commitIndex {
        commitIndex := Min(req.commitIndex, |log| - 1);
      }
      resp := HeartbeatResponse(serverId, currentTerm, true, lastApplied);
    }

    /**
     * `_append_log_entry`: one entry at the end, from the current term; a
     * leader without peers commits it at once.
     */
    method AppendLogEntry(cmd: Command, now: Timestamp) returns (index: int)
      requires Valid()
      modifies this`log, this`commitIndex
      ensures Valid() && Progress()
      ensures index == |old(log)|
      ensures log == old(log) + [LogEntry(currentTerm, index, cmd, now)]
      ensures commitIndex == if state == Leader && |peers| == 0 then index else old(commitIndex)
    {
      var entry := LogEntry(currentTerm, |log|, cmd, now);
      log := log + [entry];
      if state == Leader && |peers| == 0 {
        commitIndex := entry.index;
      }
      index := entry.index;
    }

    /** `_apply_command`: the business-rule call the command selects, run on the store. */
    method ApplyCommand(cmd: Command, env: Env) returns (r: Rules.Reply)
      requires logic.db.Valid()
      modifies logic.db
      ensures logic.db.Valid()
      ensures Rules.Outcome(logic.db.Snapshot(), r) == Execute(old(logic.db.Snapshot()), cmd, env)
    {
      match cmd
      case Register(username, password) =>
        r := logic.RegisterUser(username, password);
      case Authenticate(username, password) =>
        r := logic.AuthenticateUser(username, password);
      case Create(title, username) =>
        r := logic.CreateDocument(title, username, env.freshId, env.now);
      case UpdateTitle(documentId, title, username) =>
        r := logic.UpdateDocumentTitle(documentId, title, username, env.now);
      case UpdateContent(documentId, content, baseContent, username) =>
        if baseContent != "" {
          r := logic.UpdateDocumentContentWithMerge(documentId, content, baseContent, username, env.now, env.diffs);
        } else {
          r := logic.UpdateDocumentContent(documentId, content, username, env.now);
        }
      case Delete(documentId, username) =>
        r := logic.DeleteDocument(documentId, username);
      case AddUser(documentId, username, addedBy) =>
        r := logic.AddUserToDocument(documentId, username, addedBy);
      case RemoveUser(documentId, username, removedBy) =>
        r := logic.RemoveUserFromDocument(documentId, username, removedBy);
      case Unknown(operation) =>
        r := Rules.Fail("Unknown operation: " + operation);
    }

    /**
     * One step of `_apply_committed_entries`: when an entry is committed
     * but not yet applied, the next one is applied and nothing else.
     */
    method ApplyStep(env: Env)
      requires Valid()
      modifies this`lastApplied, logic.db
      ensures Valid() && Progress()
      ensures lastApplied == if old(commitIndex > lastApplied) then old(lastApplied) + 1 else old(lastApplied)
      ensures lastApplied == old(lastApplied) ==> logic.db.Snapshot() == old(logic.db.Snapshot())
      ensures lastApplied > old(lastApplied) ==>
        logic.db.Snapshot() == Execute(old(logic.db.Snapshot()), log[lastApplied].command, env).store
    {
      if commitIndex > lastApplied {
        lastApplied := lastApplied + 1;
        var entry := log[lastApplied];
        ghost var before := logic.db.Snapshot();
        var ignored := ApplyCommand(entry.command, env);
        ExecuteKeepsConsistent(before, entry.command, env);
      }
    }

    /**
     * A write method (`register_user`, `create_document`, ...). A leader
     * logs the command and then runs it on the business rules itself and
     * returns that reply; the wait for the entry to commit is not modelled.
     * Any other replica refuses, naming the leader it knows of.
     */
    method Submit(cmd: Command, entryTime: Timestamp, env: Env) returns (r: Rules.Reply)
      requires Valid()
      requires IsWrite(cmd)
      modifies this`log, this`commitIndex, logic.db
      ensures Valid() && Progress()
      ensures old(state) != Leader ==>
        r == NotLeaderReply(leaderId) && unchanged(this) && logic.db.Snapshot() == old(logic.db.Snapshot())
      ensures old(state) == Leader ==>
        && log == old(log) + [LogEntry(currentTerm, |old(log)|, cmd, entryTime)]
        && commitIndex == (if |peers| == 0 then |old(log)| else old(commitIndex))
        && Rules.Outcome(logic.db.Snapshot(), r) == Execute(old(logic.db.Snapshot()), cmd, env)
    {
      if state == Leader {
        var index := AppendLogEntry(cmd, entryTime);
        ghost var before := logic.db.Snapshot();
        r := ApplyCommand(cmd, env);
        ExecuteKeepsConsistent(before, cmd, env);
      } else {
        r := NotLeaderReply(leaderId);
      }
    }
  }
}
