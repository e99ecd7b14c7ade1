/**
  The device and session tables of internal/db/db.go and the transactions on them. Each
  function is the committed effect of one SQL transaction; `Database` issues the
  statements one after the other and commits or rolls back.
 */
module SessionTables {
  import opened Common

  type SessionId = nat

  datatype Status = Idle | Claimed | Offline

  datatype DeviceRow = DeviceRow(provider: string, status: Status, streamPort: int)

  datatype SessionRow = SessionRow(serial: Serial, active: bool)

  datatype Tables = Tables(devices: map<Serial, DeviceRow>, sessions: map<SessionId, SessionRow>)

  /** `CASE WHEN status = 'offline' THEN 'idle' ELSE status END`. */
  function Revive(row: DeviceRow): DeviceRow {
    if row.status == Offline then row.(status := Idle) else row
  }

  /** `UPDATE devices ... WHERE serial = $1`: nothing happens without such a row. */
  function UpdateDevice(t: Tables, serial: Serial, update: DeviceRow -> DeviceRow): Tables {
    if serial in t.devices then t.(devices := t.devices[serial := update(t.devices[serial])]) else t
  }

  function AfterRegister(t: Tables, provider: string, serial: Serial): Tables {
    if serial in t.devices
    then t.(devices := t.devices[serial := Revive(t.devices[serial]).(provider := provider)])
    else t.(devices := t.devices[serial := DeviceRow(provider, Idle, 0)])
  }

  function AfterRelease(t: Tables, serial: Serial): Tables {
    UpdateDevice(t, serial, (row: DeviceRow) => row.(status := Offline))
  }

  function AfterHeartbeat(t: Tables, serial: Serial): Tables {
    UpdateDevice(t, serial, (row: DeviceRow) => Revive(row))
  }

  function AfterStreamPort(t: Tables, serial: Serial, port: int): Tables {
    UpdateDevice(t, serial, (row: DeviceRow) => row.(streamPort := port))
  }

  /** The statement run when a provider's heartbeat stream ends. */
  function AfterLoss(t: Tables, provider: string): Tables {
    t.(devices := map s | s in t.devices ::
         if t.devices[s].provider == provider then t.devices[s].(status := Offline) else t.devices[s])
  }

  function CloseRows(sessions: map<SessionId, SessionRow>, serial: Serial): map<SessionId, SessionRow> {
    map id | id in sessions ::
      if sessions[id].serial == serial then sessions[id].(active := false) else sessions[id]
  }

  function CloseDevice(row: DeviceRow): DeviceRow {
    row.(status := if row.status == Offline then Offline else Idle, streamPort := 0)
  }

  function AfterClose(t: Tables, serial: Serial): Tables {
    UpdateDevice(t, serial, (row: DeviceRow) => CloseDevice(row)).(sessions := CloseRows(t.sessions, serial))
  }

  /** When `CreateSession` commits: the row exists, is not claimed, and the id is new. */
  predicate CanCreate(t: Tables, id: SessionId, serial: Serial) {
    serial in t.devices && t.devices[serial].status != Claimed && id !in t.sessions
  }

  function AfterCreate(t: Tables, id: SessionId, serial: Serial): Tables
    requires CanCreate(t, id, serial)
  {
    Tables(t.devices[serial := t.devices[serial].(status := Claimed)],
           t.sessions[id := SessionRow(serial, true)])
  }

  ghost function ActiveIds(t: Tables, serial: Serial): set<SessionId> {
    set id | id in t.sessions && t.sessions[id].serial == serial && t.sessions[id].active
  }

  /** A claimed device always has an active session row. */
  ghost predicate ClaimedHasSession(t: Tables) {
    forall s :: s in t.devices && t.devices[s].status == Claimed ==> ActiveIds(t, s) != {}
  }

  /** Every transaction keeps `ClaimedHasSession`. */
  lemma TransactionsKeepSession(t: Tables, serial: Serial, provider: string, port: int)
    requires ClaimedHasSession(t)
    ensures ClaimedHasSession(AfterRegister(t, provider, serial))
    ensures ClaimedHasSession(AfterRelease(t, serial))
    ensures ClaimedHasSession(AfterHeartbeat(t, serial))
    ensures ClaimedHasSession(AfterStreamPort(t, serial, port))
    ensures ClaimedHasSession(AfterLoss(t, provider))
  {
    forall s: Serial
      ensures ActiveIds(AfterRegister(t, provider, serial), s) == ActiveIds(t, s)
      ensures ActiveIds(AfterRelease(t, serial), s) == ActiveIds(t, s)
      ensures ActiveIds(AfterHeartbeat(t, serial), s) == ActiveIds(t, s)
      ensures ActiveIds(AfterStreamPort(t, serial, port), s) == ActiveIds(t, s)
      ensures ActiveIds(AfterLoss(t, provider), s) == ActiveIds(t, s)
    {
    }
  }

  lemma CloseEndsSessions(t: Tables, serial: Serial)
    ensures var t' := AfterClose(t, serial);
            && ActiveIds(t', serial) == {}
            && (forall s :: s != serial ==> ActiveIds(t', s) == ActiveIds(t, s))
            && (serial in t'.devices ==> t'.devices[serial].streamPort == 0 && t'.devices[serial].status != Claimed)
            && (ClaimedHasSession(t) ==> ClaimedHasSession(t'))
  {
    var t' := AfterClose(t, serial);
    forall s | s != serial
      ensures ActiveIds(t', s) == ActiveIds(t, s)
    {
      forall id
        ensures id in ActiveIds(t', s) <==> id in ActiveIds(t, s)
      {
      }
    }
  }

  /**
    A new claim adds one active row and closes none, so there is still at most one exactly
    when there was none before.
   */
  lemma CreateAddsSession(t: Tables, id: SessionId, serial: Serial)
    requires CanCreate(t, id, serial)
    ensures var t' := AfterCreate(t, id, serial);
            && ActiveIds(t', serial) == ActiveIds(t, serial) + {id}
            && |ActiveIds(t', serial)| == |ActiveIds(t, serial)| + 1
            && (|ActiveIds(t', serial)| <= 1 <==> ActiveIds(t, serial) == {})
            && (forall s :: s != serial ==> ActiveIds(t', s) == ActiveIds(t, s))
            && (ClaimedHasSession(t) ==> ClaimedHasSession(t'))
  {
    var t' := AfterCreate(t, id, serial);
    assert ActiveIds(t', serial) == ActiveIds(t, serial) + {id};
    forall s | s != serial
      ensures ActiveIds(t', s) == ActiveIds(t, s)
    {
    }
  }

  /** The statements, with a transaction's working copy where the source opens one. */
  class Database {
    var tables: Tables

    constructor ()
      ensures tables == Tables(map[], map[])
    {
      tables := Tables(map[], map[]);
    }

    method CreateSession(id: SessionId, serial: Serial) returns (committed: bool)
      modifies this
      ensures committed <==>
              && serial in old(tables).devices && old(tables).devices[serial].status != Claimed
              && id !in old(tables).sessions
      ensures tables == if committed then AfterCreate(old(tables), id, serial) else old(tables)
    {
      var tx := tables;
      if serial !in tx.devices {
        return false;
      }
      if tx.devices[serial].status == Claimed {
        return false;
      }
      tx := tx.(devices := tx.devices[serial := tx.devices[serial].(status := Claimed)]);
      if id in tx.sessions {
        return false;
      }
      tx := tx.(sessions := tx.sessions[id := SessionRow(serial, true)]);
      tables := tx;
      return true;
    }

    method CloseSession(serial: Serial)
      modifies this
      ensures tables == AfterClose(old(tables), serial)
    {
      var tx := tables;
      if serial in tx.devices {
        tx := tx.(devices := tx.devices[serial := CloseDevice(tx.devices[serial])]);
      }
      tx := tx.(sessions := CloseRows(tx.sessions, serial));
      tables := tx;
    }
  }
}
