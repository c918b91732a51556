/** The keeper's registry of running sessions. */
module SessionRegistry {
  import opened Wrappers

  datatype SessionInfo = SessionInfo(pgid: int, command: string)

  /** The registry's contents: the sessions listed, and the last id given out. */
  datatype Table = Table(sessions: map<nat, SessionInfo>, lastId: nat) {
    /** Ids start at 1, and none is listed that was not given out. */
    ghost predicate Valid() {
      forall id <- sessions :: 1 <= id <= lastId
    }
  }

  const EMPTY := Table(map[], 0)

  /** Inserting is two steps, and other threads may come between them: an id is taken, then listed under the lock. */
  function Taken(t: Table): Table {
    t.(lastId := t.lastId + 1)
  }

  function Listed(t: Table, id: nat, info: SessionInfo): Table {
    t.(sessions := t.sessions[id := info])
  }

  function Removed(t: Table, id: nat): Table {
    t.(sessions := t.sessions - {id})
  }

  class Registry {
    var sessions: map<nat, SessionInfo>
    var nextId: nat

    ghost function Contents(): Table
      reads this
    {
      Table(sessions, nextId)
    }

    constructor ()
      ensures Contents() == EMPTY
    {
      sessions := map[];
      nextId := 0;
    }

    method Insert(pgid: int, command: string) returns (id: nat)
      requires Contents().Valid()
      modifies this
      ensures id == old(nextId) + 1 && id !in old(sessions)
      ensures Contents() == Listed(Taken(old(Contents())), id, SessionInfo(pgid, command))
      ensures Contents().Valid()
    {
      nextId := nextId + 1;
      id := nextId;
      sessions := sessions[id := SessionInfo(pgid, command)];
    }

    method Remove(id: nat) returns (r: Option<SessionInfo>)
      requires Contents().Valid()
      modifies this
      ensures r == if id in old(sessions) then Some(old(sessions)[id]) else None
      ensures Contents() == Removed(old(Contents()), id) && id !in sessions
      ensures Contents().Valid()
    {
      r := if id in sessions then Some(sessions[id]) else None;
      sessions := sessions - {id};
    }

    method Contains(id: nat) returns (r: bool)
      ensures r <==> id in sessions
    {
      r := id in sessions;
    }

    /** Every session listed once, in no particular order. */
    method Snapshot() returns (all: seq<(nat, SessionInfo)>)
      ensures forall p <- all :: p.0 in sessions && sessions[p.0] == p.1
      ensures forall id <- sessions :: (id, sessions[id]) in all
      ensures forall i, j :: 0 <= i < j < |all| ==> all[i].0 != all[j].0
    {
      all := [];
      var left := sessions.Keys;
      while left != {}
        invariant left <= sessions.Keys
        invariant forall p <- all :: p.0 in sessions && p.0 !in left && sessions[p.0] == p.1
        invariant forall id <- sessions :: id in left || (id, sessions[id]) in all
        invariant forall i, j :: 0 <= i < j < |all| ==> all[i].0 != all[j].0
        decreases |left|
      {
        var id :| id in left;
        left := left - {id};
        all := all + [(id, sessions[id])];
      }
    }
  }
}
