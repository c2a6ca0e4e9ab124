/** The connection manager as an object, proved against the registry's specification. */
module ConnectionManager {
  import opened Wrappers
  import opened Whitespace
  import opened Decimal
  import R = ConnectionRegistry

  class DBConnection {
    var id: string
    var owner: string
    var closed: bool
    const dsn: string
    const hasDatabase: bool

    constructor (id: string, owner: string, dsn: string, hasDatabase: bool)
      ensures View() == R.Conn(id, owner, dsn, hasDatabase, false)
    {
      this.id, this.owner, this.closed := id, owner, false;
      this.dsn, this.hasDatabase := dsn, hasDatabase;
    }

    ghost function View(): R.Conn
      reads this
    {
      R.Conn(id, owner, dsn, hasDatabase, closed)
    }

    predicate Visible(session: string)
      reads this
    {
      owner == "" || owner == session
    }

    method Close()
      modifies this`closed
      ensures closed
    {
      closed := true;
    }
  }

  class ConnectionManager {
    var active: string
    var defaultId: string
    var activeBySession: map<string, string>
    var conns: map<string, DBConnection>
    var persisted: set<string>
    const suffix: string -> string

    ghost function Objects(): set<DBConnection>
      reads this
    {
      set k | k in conns :: conns[k]
    }

    ghost function View(): R.Registry
      reads this, Objects()
    {
      R.Registry(map k | k in conns :: conns[k].View(), active, defaultId, activeBySession, persisted)
    }

    ghost predicate Shows(r: R.Registry)
      reads this, Objects()
    {
      && r.active == active && r.defaultId == defaultId && r.chosen == activeBySession && r.persisted == persisted
      && r.conns.Keys == conns.Keys
      && (forall k | k in conns :: r.conns[k] == conns[k].View())
    }

    lemma Shown(r: R.Registry)
      requires Shows(r)
      ensures View() == r
    {
      assert View().conns == r.conns;
    }

    /** A sound registry that the fields show is the view, and leaves the manager valid. */
    lemma Settles(r: R.Registry)
      requires Shows(r) && R.Sound(r) && Apart(conns)
      ensures Valid() && View() == r
    {
      Shown(r);
    }

    /** References are sound, and no connection is registered twice. */
    ghost predicate Valid()
      reads this, Objects()
    {
      R.Sound(View()) && Apart(conns)
    }

    lemma RegisteredIsOpen(id: string)
      requires Valid() && id in conns
      ensures conns[id].id == id && !conns[id].closed
    {
      assert View().conns[id] == conns[id].View();
    }

    constructor (builtIn: DBConnection, suffix: string -> string)
      requires builtIn.id == R.DEFAULT_ID && !builtIn.closed
      ensures Valid() && View() == R.Initial(builtIn.View())
      ensures this.suffix == suffix && fresh(Objects() - {builtIn})
    {
      active, defaultId := builtIn.id, builtIn.id;
      activeBySession := map[];
      conns := map[builtIn.id := builtIn];
      persisted := {};
      this.suffix := suffix;
    }

    method MarkPersisted(id: string)
      requires Valid()
      modifies this, Objects()
      ensures Valid() && View() == R.Apply(suffix, old(View()), R.MarkPersisted(id))
    {
      if id in conns {
        ghost var after := R.Persisted(View(), id);
        R.PersistKeepsSound(View(), id);
        persisted := persisted + {id};
        conns[id].owner := "";
        Settles(after);
      }
    }

    method UnmarkPersisted(id: string)
      requires Valid()
      modifies this
      ensures Valid() && View() == R.Apply(suffix, old(View()), R.UnmarkPersisted(id))
    {
      ghost var after := View().(persisted := persisted - {id});
      persisted := persisted - {id};
      Settles(after);
    }

    /** Drops a connection and every reference to it, and closes it. */
    method Remove(id: string) returns (failure: Option<R.Failure>)
      requires Valid()
      modifies this, Objects()
      ensures failure == R.Failed(old(View()), R.Remove(id))
      ensures Valid() && View() == R.Apply(suffix, old(View()), R.Remove(id))
      ensures failure == None ==> old(conns)[id].closed == old(conns)[id].hasDatabase
    {
      if id == R.DEFAULT_ID {
        return Some(R.BuiltIn);
      }
      if id !in conns {
        return Some(R.NotFound);
      }
      ghost var after := R.Removed(View(), id);
      R.RemoveKeepsSound(View(), id);
      RegisteredIsOpen(id);
      Drop(id);
      Settles(after);
      return None;
    }

    method CloseDatabase(conn: DBConnection)
      modifies conn`closed
      ensures conn.closed == (old(conn.closed) || conn.hasDatabase)
    {
      if conn.hasDatabase {
        conn.Close();
      }
    }

    method Drop(id: string)
      requires id in conns && Apart(conns) && !conns[id].closed
      modifies this, conns[id]
      ensures conns == old(conns) - {id} && persisted == old(persisted) - {id}
      ensures active == if old(active) == id then R.DEFAULT_ID else old(active)
      ensures defaultId == if old(defaultId) == id then R.DEFAULT_ID else old(defaultId)
      ensures activeBySession == R.Forgotten(old(activeBySession), id)
      ensures forall k | k in conns :: conns[k].View() == old(conns[k].View())
      ensures old(conns)[id].closed == old(conns)[id].hasDatabase
    {
      CloseDatabase(conns[id]);
      conns := conns - {id};
      persisted := persisted - {id};
      if active == id {
        active := R.DEFAULT_ID;
      }
      if defaultId == id {
        defaultId := R.DEFAULT_ID;
      }
      ForgetChoices(id);
    }

    method ForgetChoices(id: string)
      modifies this`activeBySession
      ensures activeBySession == R.Forgotten(old(activeBySession), id)
    {
      var sessions := activeBySession.Keys;
      while sessions != {}
        invariant sessions <= activeBySession.Keys <= old(activeBySession.Keys)
        invariant forall s | s in activeBySession :: activeBySession[s] == old(activeBySession)[s]
        invariant forall s | s in old(activeBySession) && s !in sessions ::
          s in activeBySession <==> old(activeBySession)[s] != id
        decreases |sessions|
      {
        var s :| s in sessions;
        sessions := sessions - {s};
        if activeBySession[s] == id {
          activeBySession := activeBySession - {s};
        }
      }
    }

    method RebindSession(oldSession: string, newSession: string)
      requires Valid()
      modifies this, Objects()
      ensures Valid() && View() == R.Apply(suffix, old(View()), R.RebindSession(oldSession, newSession))
    {
      var oldId, newId := TrimSpace(oldSession), TrimSpace(newSession);
      if oldId == "" || newId == "" || oldId == newId {
        return;
      }
      ghost var after := R.Reowned(View(), oldId, newId);
      R.ReownKeepsSound(View(), oldId, newId);
      Rebind(oldId, newId);
      Settles(after);
    }

    method Rebind(oldId: string, newId: string)
      requires Apart(conns)
      modifies this`activeBySession, Objects()
      ensures Shows(R.Reowned(old(View()), oldId, newId))
    {
      MoveChoice(oldId, newId);
      Reown(oldId, newId);
    }

    method MoveChoice(oldId: string, newId: string)
      modifies this`activeBySession
      ensures activeBySession == R.ReboundChoice(old(activeBySession), oldId, newId)
    {
      if oldId in activeBySession {
        activeBySession := activeBySession[newId := activeBySession[oldId]] - {oldId};
      }
    }

    method Reown(oldId: string, newId: string)
      requires Apart(conns)
      modifies Objects()
      ensures forall k | k in conns :: conns[k].View() == R.Rebound(old(conns[k].View()), oldId, newId)
    {
      var ids := conns.Keys;
      while ids != {}
        invariant ids <= conns.Keys
        invariant forall k | k in conns ::
          conns[k].View() == if k in ids then old(conns[k].View()) else R.Rebound(old(conns[k].View()), oldId, newId)
        decreases |ids|
      {
        var k :| k in ids;
        ids := ids - {k};
        if conns[k].owner == oldId {
          conns[k].owner := newId;
        }
      }
    }

    predicate Taken(session: string, id: string)
      reads this, Objects()
      ensures Taken(session, id) == R.Taken(View(), session, id)
    {
      id in conns && !conns[id].Visible(session)
    }

    /** The ID under which a session's private connection is stored: always found, and never another session's. */
    method DisambiguateId(session: string, id: string) returns (free: string)
      ensures free == R.Disambiguated(View(), session, id, suffix(session))
    {
      if !Taken(session, id) {
        return id;
      }
      var tag := suffix(session);
      var candidate := id + "-" + tag;
      ghost var r := View();
      var i := 2;
      while Taken(session, candidate)
        invariant i >= 2 && candidate == R.Variant(id, tag, i - 1)
        invariant R.TakenBefore(r, session, id, tag, i - 1)
        decreases |r.conns| + 2 - i
      {
        R.FewTaken(r, session, id, tag, i);
        candidate := id + "-" + tag + "-" + Itoa(i);
        i := i + 1;
      }
      R.FirstFreeUnique(r, session, id, tag, 1, i - 1);
      free := candidate;
    }

    /**
     Registers a connection under its possibly changed ID and closes what it replaces, save the built-in
     one. A connection that is registered already replaces itself, and so is closed.
     */
    method Add(conn: DBConnection) returns (failure: Option<R.Failure>)
      modifies this`conns, Objects(), conn
      ensures failure == R.Failed(old(View()), R.Add(old(conn.View())))
      ensures failure.Some? ==> View() == old(View()) && conn.View() == old(conn.View())
      ensures failure.None? ==>
        && conns == old(conns)[conn.id := conn]
        && conn.id == R.AddedUnder(suffix, old(View()), old(conn.View())) && conn.owner == old(conn.owner)
      ensures failure.None? ==> forall k | k in old(conns) ::
        var was := old(conns)[k];
        was.closed == (old(was.closed) || (conn.id in old(conns) && Closes(old(conns)[conn.id], was)))
      ensures old(Valid()) && failure.None? ==>
        (Valid() <==> if old(conn in Objects()) then !Closes(conn, conn) else !old(conn.closed))
      ensures old(Valid() && conn !in Objects() && !conn.closed) ==>
        Valid() && View() == R.Apply(suffix, old(View()), R.Add(old(conn.View())))
    {
      if TrimSpace(conn.id) == "" {
        return Some(R.IdRequired);
      }
      R.AddedIdIsNotBlank(suffix, View(), conn.View());
      Register(conn);
      return None;
    }

    method Register(conn: DBConnection)
      requires R.AddedUnder(suffix, View(), conn.View()) != ""
      modifies this`conns, Objects(), conn
      ensures conns == old(conns)[conn.id := conn]
      ensures conn.id == R.AddedUnder(suffix, old(View()), old(conn.View())) && conn.owner == old(conn.owner)
      ensures forall k | k in old(conns) ::
        var was := old(conns)[k];
        was.closed == (old(was.closed) || (conn.id in old(conns) && Closes(old(conns)[conn.id], was)))
      ensures old(Valid()) ==>
        (Valid() <==> if old(conn in Objects()) then !Closes(conn, conn) else !old(conn.closed))
      ensures conn !in old(Objects()) ==> conn.closed == old(conn.closed)
      ensures old(Valid() && conn !in Objects() && !conn.closed) ==> View() == R.Inserted(old(View()), conn.View())
    {
      ghost var before, valid, registered := View(), Valid(), conn in Objects();
      if valid && registered {
        RegisteredKeepsId(conn);
      }
      Place(conn);
      if valid {
        if registered {
          ReinsertedMeans(before, conn);
        } else {
          InsertedMeans(before, old(conns), conn);
        }
      }
    }

    /** Names the connection and puts it in place; only it and what it replaces change. */
    method Place(conn: DBConnection)
      modifies this`conns, Objects()`closed, conn`id
      ensures conns == old(conns)[conn.id := conn]
      ensures conn.id == R.AddedUnder(suffix, old(View()), old(conn.View()))
      ensures forall k | k in old(conns) ::
        var was := old(conns)[k];
        was.closed == (old(was.closed) || (conn.id in old(conns) && Closes(old(conns)[conn.id], was)))
      ensures conn !in old(Objects()) ==> conn.closed == old(conn.closed)
    {
      Name(conn);
      Insert(conn);
    }

    method Name(conn: DBConnection)
      modifies conn`id
      ensures conn.id == R.AddedUnder(suffix, old(View()), old(conn.View()))
    {
      if conn.owner != "" {
        var free := DisambiguateId(conn.owner, conn.id);
        conn.id := free;
      }
    }

    method Insert(conn: DBConnection)
      modifies this`conns, Objects()`closed
      ensures conns == old(conns)[conn.id := conn]
      ensures forall k | k in old(conns) ::
        var was := old(conns)[k];
        was.closed == (old(was.closed) || (conn.id in old(conns) && Closes(old(conns)[conn.id], was)))
      ensures conn !in old(Objects()) ==> conn.closed == old(conn.closed)
    {
      if conn.id in conns && conns[conn.id].id != R.DEFAULT_ID {
        CloseDatabase(conns[conn.id]);
      }
      conns := conns[conn.id := conn];
    }

    /** A registered connection of a valid manager is visible to its owner, and so keeps its ID. */
    lemma RegisteredKeepsId(conn: DBConnection)
      requires Valid() && conn in Objects()
      ensures conn.id in conns && conns[conn.id] == conn
      ensures R.AddedUnder(suffix, View(), conn.View()) == conn.id
    {
      var k :| k in conns && conns[k] == conn;
      RegisteredIsOpen(k);
      assert View().conns[k] == conn.View();
    }

    /** All fields but the connections. */
    ghost predicate SameElse(r: R.Registry)
      reads this
    {
      r.active == active && r.defaultId == defaultId && r.chosen == activeBySession && r.persisted == persisted
    }

    lemma InsertedMeans(before: R.Registry, was: map<string, DBConnection>, conn: DBConnection)
      requires R.Sound(before) && SameElse(before) && before.conns.Keys == was.Keys
      requires Apart(was) && conn !in was.Values && conns == was[conn.id := conn] && conn.id != ""
      requires forall k | k in was && k != conn.id :: was[k].View() == before.conns[k]
      ensures conn.closed ==> !Valid()
      ensures !conn.closed ==> Valid() && View() == R.Inserted(before, conn.View())
    {
      if conn.closed {
        ClosedIsInvalid(conn);
      } else {
        R.InsertKeepsSound(before, conn.View());
        Settles(R.Inserted(before, conn.View()));
      }
    }

    lemma ReinsertedMeans(before: R.Registry, conn: DBConnection)
      requires R.Sound(before) && SameElse(before) && before.conns.Keys == conns.Keys && Apart(conns)
      requires conn.id in conns && conns[conn.id] == conn
      requires forall k | k in conns && k != conn.id :: conns[k].View() == before.conns[k]
      requires conn.View() == before.conns[conn.id].(closed := Closes(conn, conn))
      ensures Valid() <==> !Closes(conn, conn)
    {
      if Closes(conn, conn) {
        ClosedIsInvalid(conn);
      } else {
        Settles(before);
      }
    }

    lemma ClosedIsInvalid(conn: DBConnection)
      requires conn.id in conns && conns[conn.id] == conn && conn.closed
      ensures !Valid()
    {
      assert View().conns[conn.id] == conn.View();
    }

    method SetActive(id: string) returns (failure: Option<R.Failure>)
      requires Valid()
      modifies this
      ensures failure == R.Failed(old(View()), R.SetActive(id))
      ensures Valid() && View() == R.Apply(suffix, old(View()), R.SetActive(id))
    {
      if id !in conns {
        return Some(R.NotFound);
      }
      ghost var after := View().(active := id);
      active := id;
      Settles(after);
      return None;
    }

    method SetDefault(id: string) returns (failure: Option<R.Failure>)
      requires Valid()
      modifies this
      ensures failure == R.Failed(old(View()), R.SetDefault(id))
      ensures Valid() && View() == R.Apply(suffix, old(View()), R.SetDefault(id))
    {
      if id !in conns {
        return Some(R.NotFound);
      }
      if conns[id].owner != "" {
        return Some(R.Private);
      }
      ghost var after := View().(defaultId := id, active := id);
      defaultId := id;
      active := id;
      Settles(after);
      return None;
    }

    method SetActiveFor(session: string, id: string) returns (failure: Option<R.Failure>)
      requires Valid()
      modifies this
      ensures failure == R.Failed(old(View()), R.SetActiveFor(session, id))
      ensures Valid() && View() == R.Apply(suffix, old(View()), R.SetActiveFor(session, id))
    {
      if id !in conns || !conns[id].Visible(session) {
        return Some(R.NotFound);
      }
      ghost var r := View();
      if TrimSpace(session) == "" {
        active := id;
        Settles(r.(active := id));
      } else {
        activeBySession := activeBySession[session := id];
        Settles(r.(chosen := r.chosen[session := id]));
      }
      return None;
    }

    method ActiveFor(session: string) returns (conn: DBConnection)
      requires Valid()
      ensures R.ActiveFor(View(), session) == Some(conn.View()) && conn in Objects()
    {
      var s := TrimSpace(session);
      if s != "" && s in activeBySession && activeBySession[s] in conns {
        return conns[activeBySession[s]];
      }
      conn := conns[active];
    }

    method GetFor(session: string, id: string) returns (conn: Option<DBConnection>)
      requires Valid()
      ensures conn.Some? ==> R.GetFor(View(), session, id) == Some(conn.value.View()) && conn.value in Objects()
      ensures conn.None? ==> R.GetFor(View(), session, id) == None
    {
      var i := TrimSpace(id);
      if i !in conns || !conns[i].Visible(session) {
        return None;
      }
      conn := Some(conns[i]);
    }
  }

  /** Replacing a connection closes it, if it has a database and is not the built-in one. */
  ghost predicate Closes(replaced: DBConnection, conn: DBConnection)
    reads conn
  {
    conn == replaced && conn.hasDatabase && conn.id != R.DEFAULT_ID
  }

  ghost predicate Apart(conns: map<string, DBConnection>) {
    forall i, j | i in conns && j in conns && i != j :: conns[i] != conns[j]
  }
}
