/** The registry of database connections as a value: its operations and what they keep. */
module ConnectionRegistry {
  import opened Wrappers
  import opened Whitespace
  import opened Decimal
  import opened Pigeonhole

  const DEFAULT_ID := "default"

  /** A connection; an empty owner means it is shared by all sessions. */
  datatype Conn = Conn(id: string, owner: string, dsn: string, hasDatabase: bool, closed: bool)

  datatype Registry = Registry(
    conns: map<string, Conn>,
    active: string,
    defaultId: string,
    chosen: map<string, string>,
    persisted: set<string>)

  datatype Failure = IdRequired | BuiltIn | NotFound | Private

  predicate VisibleTo(c: Conn, session: string) {
    c.owner == "" || c.owner == session
  }

  function Initial(builtIn: Conn): Registry {
    Registry(map[builtIn.id := builtIn], builtIn.id, builtIn.id, map[], {})
  }

  // ---- Choosing an ID for a private connection ----

  /** The ID belongs to a connection that the session may not see. */
  predicate Taken(r: Registry, session: string, id: string) {
    id in r.conns && !VisibleTo(r.conns[id], session)
  }

  /** The n-th variant of an ID, counted from 1. */
  function Variant(id: string, suffix: string, n: nat): string {
    if n <= 1 then id + "-" + suffix else id + "-" + suffix + "-" + Itoa(n)
  }

  /** The first is told by the session's tag alone, the next ones by a number from 2 on. */
  lemma VariantNames(id: string, suffix: string, n: nat)
    ensures Variant(id, suffix, 1) == id + "-" + suffix
    ensures n >= 2 ==> Variant(id, suffix, n) == Variant(id, suffix, 1) + "-" + Itoa(n)
  {
  }

  lemma VariantsDiffer(id: string, suffix: string, m: nat, n: nat)
    requires 1 <= m < n
    ensures Variant(id, suffix, m) != Variant(id, suffix, n)
  {
    var base := id + "-" + suffix;
    assert Variant(id, suffix, n) == base + "-" + Itoa(n);
    if m == 1 {
      assert |Variant(id, suffix, n)| > |base|;
    } else {
      assert Variant(id, suffix, m) == base + "-" + Itoa(m);
      if Variant(id, suffix, m) == Variant(id, suffix, n) {
        assert (base + "-" + Itoa(m))[|base| + 1..] == Itoa(m);
        assert (base + "-" + Itoa(n))[|base| + 1..] == Itoa(n);
        ItoaInjective(m, n);
      }
    }
  }

  /** The variants before the n-th all belong to other sessions. */
  ghost predicate TakenBefore(r: Registry, session: string, id: string, suffix: string, n: nat) {
    forall m | 1 <= m < n :: Taken(r, session, Variant(id, suffix, m))
  }

  ghost function Variants(id: string, suffix: string, n: nat): set<string>
    requires n >= 1
  {
    if n == 1 then {} else Variants(id, suffix, n - 1) + {Variant(id, suffix, n - 1)}
  }

  lemma {:induction false} VariantsAre(id: string, suffix: string, n: nat, s: string) returns (m: nat)
    requires n >= 1 && s in Variants(id, suffix, n)
    ensures 1 <= m < n && Variant(id, suffix, m) == s
  {
    if s == Variant(id, suffix, n - 1) {
      m := n - 1;
    } else {
      m := VariantsAre(id, suffix, n - 1, s);
    }
  }

  lemma NotAmongFormer(id: string, suffix: string, n: nat)
    requires n >= 1
    ensures Variant(id, suffix, n) !in Variants(id, suffix, n)
  {
    if Variant(id, suffix, n) in Variants(id, suffix, n) {
      var m := VariantsAre(id, suffix, n, Variant(id, suffix, n));
      VariantsDiffer(id, suffix, m, n);
    }
  }

  lemma {:induction false} VariantsCounted(r: Registry, session: string, id: string, suffix: string, n: nat)
    requires n >= 1 && TakenBefore(r, session, id, suffix, n)
    ensures Variants(id, suffix, n) <= r.conns.Keys
    ensures |Variants(id, suffix, n)| == n - 1
  {
    if n > 1 {
      VariantsCounted(r, session, id, suffix, n - 1);
      NotAmongFormer(id, suffix, n - 1);
      assert Taken(r, session, Variant(id, suffix, n - 1));
    }
  }

  /** No more variants can be taken than there are connections. */
  lemma FewTaken(r: Registry, session: string, id: string, suffix: string, n: nat)
    requires n >= 1 && TakenBefore(r, session, id, suffix, n)
    ensures n - 1 <= |r.conns|
  {
    VariantsCounted(r, session, id, suffix, n);
    SubsetSize(Variants(id, suffix, n), r.conns.Keys);
  }

  function FirstFree(r: Registry, session: string, id: string, suffix: string, n: nat): (free: nat)
    requires n >= 1 && TakenBefore(r, session, id, suffix, n)
    ensures free >= n && TakenBefore(r, session, id, suffix, free)
    ensures !Taken(r, session, Variant(id, suffix, free))
    decreases |r.conns| + 1 - n
  {
    FewTaken(r, session, id, suffix, n);
    if !Taken(r, session, Variant(id, suffix, n)) then n
    else
      (FewTaken(r, session, id, suffix, n + 1); FirstFree(r, session, id, suffix, n + 1))
  }

  function Disambiguated(r: Registry, session: string, id: string, suffix: string): string {
    if !Taken(r, session, id) then id else Variant(id, suffix, FirstFree(r, session, id, suffix, 1))
  }

  // ---- Operations ----

  datatype Operation =
    | MarkPersisted(id: string)
    | UnmarkPersisted(id: string)
    | Remove(id: string)
    | RebindSession(oldId: string, newId: string)
    | Add(conn: Conn)
    | SetActive(id: string)
    | SetDefault(id: string)
    | SetActiveFor(session: string, id: string)

  /** `suffix` derives the tag of a session. */
  function AddedUnder(suffix: string -> string, r: Registry, c: Conn): string {
    if c.owner == "" then c.id else Disambiguated(r, c.owner, c.id, suffix(c.owner))
  }

  function Failed(r: Registry, op: Operation): Option<Failure> {
    match op
    case MarkPersisted(_) => None
    case UnmarkPersisted(_) => None
    case Remove(id) => if id == DEFAULT_ID then Some(BuiltIn) else if id !in r.conns then Some(NotFound) else None
    case RebindSession(_, _) => None
    case Add(c) => if TrimSpace(c.id) == "" then Some(IdRequired) else None
    case SetActive(id) => if id !in r.conns then Some(NotFound) else None
    case SetDefault(id) =>
      if id !in r.conns then Some(NotFound) else if r.conns[id].owner != "" then Some(Private) else None
    case SetActiveFor(session, id) =>
      if id !in r.conns || !VisibleTo(r.conns[id], session) then Some(NotFound) else None
  }

  function Inserted(r: Registry, c: Conn): Registry {
    r.(conns := r.conns[c.id := c])
  }

  /** Marking as persisted also shares. */
  function Persisted(r: Registry, id: string): Registry
    requires id in r.conns
  {
    r.(conns := r.conns[id := r.conns[id].(owner := "")], persisted := r.persisted + {id})
  }

  function Rebound(c: Conn, oldId: string, newId: string): Conn {
    if c.owner == oldId then c.(owner := newId) else c
  }

  function Forgotten(chosen: map<string, string>, id: string): map<string, string> {
    map s | s in chosen && chosen[s] != id :: chosen[s]
  }

  function Removed(r: Registry, id: string): Registry {
    Registry(
      r.conns - {id},
      if r.active == id then DEFAULT_ID else r.active,
      if r.defaultId == id then DEFAULT_ID else r.defaultId,
      Forgotten(r.chosen, id),
      r.persisted - {id})
  }

  function ReboundChoice(chosen: map<string, string>, oldId: string, newId: string): map<string, string> {
    if oldId in chosen then chosen[newId := chosen[oldId]] - {oldId} else chosen
  }

  function Reowned(r: Registry, oldId: string, newId: string): Registry {
    r.(conns := map k | k in r.conns :: Rebound(r.conns[k], oldId, newId),
       chosen := ReboundChoice(r.chosen, oldId, newId))
  }

  predicate Rebinds(oldId: string, newId: string) {
    TrimSpace(oldId) != "" && TrimSpace(newId) != "" && TrimSpace(oldId) != TrimSpace(newId)
  }

  /** The registry after an operation; a failing one changes nothing. */
  function Apply(suffix: string -> string, r: Registry, op: Operation): Registry {
    if Failed(r, op).Some? then r
    else
      match op
      case MarkPersisted(id) =>
        if id in r.conns then Persisted(r, id) else r
      case UnmarkPersisted(id) => r.(persisted := r.persisted - {id})
      case Remove(id) => Removed(r, id)
      case RebindSession(oldId, newId) =>
        if Rebinds(oldId, newId) then Reowned(r, TrimSpace(oldId), TrimSpace(newId)) else r
      case Add(c) => Inserted(r, c.(id := AddedUnder(suffix, r, c)))
      case SetActive(id) => r.(active := id)
      case SetDefault(id) => r.(defaultId := id, active := id)
      case SetActiveFor(session, id) =>
        if TrimSpace(session) == "" then r.(active := id) else r.(chosen := r.chosen[session := id])
  }

  function Run(suffix: string -> string, r: Registry, ops: seq<Operation>): Registry
    decreases |ops|
  {
    if ops == [] then r else Run(suffix, Apply(suffix, r, ops[0]), ops[1..])
  }

  // ---- Looking connections up ----

  function Lookup(r: Registry, id: string): Option<Conn> {
    if id in r.conns then Some(r.conns[id]) else None
  }

  /** A session without a choice has chosen the empty ID, as reading a missing map entry gives. */
  function Choice(r: Registry, session: string): string {
    if session in r.chosen then r.chosen[session] else ""
  }

  function ActiveFor(r: Registry, session: string): Option<Conn> {
    var s := TrimSpace(session);
    if s != "" && Choice(r, s) in r.conns then Some(r.conns[Choice(r, s)]) else Lookup(r, r.active)
  }

  function GetFor(r: Registry, session: string, id: string): Option<Conn> {
    var c := Lookup(r, TrimSpace(id));
    if c.Some? && VisibleTo(c.value, session) then c else None
  }

  // ---- References stay valid ----

  /** Some connection has the built-in ID, and everything named exists under its own ID and is open. */
  ghost predicate Sound(r: Registry) {
    && DEFAULT_ID in r.conns && "" !in r.conns
    && r.active in r.conns && r.defaultId in r.conns
    && (forall s | s in r.chosen :: r.chosen[s] in r.conns)
    && r.persisted <= r.conns.Keys
    && (forall k | k in r.conns :: r.conns[k].id == k && !r.conns[k].closed)
  }

  /** Connections are added open. */
  ghost predicate AddsOpen(ops: seq<Operation>) {
    forall i | 0 <= i < |ops| :: ops[i].Add? ==> !ops[i].conn.closed
  }

  lemma AddsOpenLater(ops: seq<Operation>)
    requires ops != [] && AddsOpen(ops)
    ensures AddsOpen(ops[1..])
  {
    forall i | 0 <= i < |ops[1..]|
      ensures ops[1..][i].Add? ==> !ops[1..][i].conn.closed
    {
      assert ops[1..][i] == ops[i + 1];
    }
  }

  lemma AddedIdIsNotBlank(suffix: string -> string, r: Registry, c: Conn)
    requires TrimSpace(c.id) != ""
    ensures AddedUnder(suffix, r, c) != ""
  {
  }

  lemma InsertKeepsSound(r: Registry, c: Conn)
    requires Sound(r) && c.id != "" && !c.closed
    ensures Sound(Inserted(r, c))
  {
  }

  lemma PersistKeepsSound(r: Registry, id: string)
    requires Sound(r) && id in r.conns
    ensures Sound(Persisted(r, id))
  {
  }

  lemma RemoveKeepsSound(r: Registry, id: string)
    requires Sound(r) && id != DEFAULT_ID
    ensures Sound(Removed(r, id))
  {
  }

  lemma ReownKeepsSound(r: Registry, oldId: string, newId: string)
    requires Sound(r)
    ensures Sound(Reowned(r, oldId, newId))
  {
  }

  lemma ApplyKeepsSound(suffix: string -> string, r: Registry, op: Operation)
    requires Sound(r) && (op.Add? ==> !op.conn.closed)
    ensures Sound(Apply(suffix, r, op))
  {
    match op
    case Add(c) =>
      if TrimSpace(c.id) != "" {
        AddedIdIsNotBlank(suffix, r, c);
        InsertKeepsSound(r, c.(id := AddedUnder(suffix, r, c)));
      }
    case _ =>
  }

  /** In every run the registry's references name existing, open connections. */
  lemma {:induction false} EveryRunIsSound(suffix: string -> string, r: Registry, ops: seq<Operation>)
    requires Sound(r) && AddsOpen(ops)
    ensures Sound(Run(suffix, r, ops))
    decreases |ops|
  {
    if ops != [] {
      AddsOpenLater(ops);
      ApplyKeepsSound(suffix, r, ops[0]);
      EveryRunIsSound(suffix, Apply(suffix, r, ops[0]), ops[1..]);
    }
  }

  // ---- The built-in connection ----

  /** The database a connection leads to. */
  predicate SameDatabase(c: Conn, d: Conn) {
    c.dsn == d.dsn && c.hasDatabase == d.hasDatabase && c.closed == d.closed
  }

  /** A connection is added under the built-in ID, shared or by a session that sees the one there. */
  predicate ReplacesBuiltIn(r: Registry, op: Operation) {
    op.Add? && op.conn.id == DEFAULT_ID && (op.conn.owner == "" || !Taken(r, op.conn.owner, DEFAULT_ID))
  }

  lemma VariantIsNotBuiltIn(id: string, suffix: string, n: nat)
    ensures Variant(id, suffix, n) != DEFAULT_ID
  {
    assert Variant(id, suffix, n)[|id|] == '-';
    assert '-' !in DEFAULT_ID;
  }

  lemma AddedAsBuiltInIff(suffix: string -> string, r: Registry, c: Conn)
    ensures AddedUnder(suffix, r, c) == DEFAULT_ID <==> ReplacesBuiltIn(r, Add(c))
  {
    if c.owner != "" && Taken(r, c.owner, c.id) {
      VariantIsNotBuiltIn(c.id, suffix(c.owner), FirstFree(r, c.owner, c.id, suffix(c.owner), 1));
    }
  }

  /** An operation keeps the database under the built-in ID exactly when it adds no other one there. */
  lemma BuiltInKeptIff(suffix: string -> string, r: Registry, op: Operation)
    requires DEFAULT_ID in r.conns
    ensures DEFAULT_ID in Apply(suffix, r, op).conns
    ensures SameDatabase(Apply(suffix, r, op).conns[DEFAULT_ID], r.conns[DEFAULT_ID])
      <==> (ReplacesBuiltIn(r, op) ==> SameDatabase(op.conn, r.conns[DEFAULT_ID]))
  {
    if op.Add? {
      AddedAsBuiltInIff(suffix, r, op.conn);
      TrimmedStays(DEFAULT_ID);
    }
  }

  /** At every moment of a run the built-in ID leads to the database of `c`. */
  ghost predicate AlwaysBuiltIn(suffix: string -> string, r: Registry, ops: seq<Operation>, c: Conn)
    decreases |ops|
  {
    && DEFAULT_ID in r.conns && SameDatabase(r.conns[DEFAULT_ID], c)
    && (ops != [] ==> AlwaysBuiltIn(suffix, Apply(suffix, r, ops[0]), ops[1..], c))
  }

  /** Some operation of a run adds another database under the built-in ID when its turn comes. */
  ghost predicate SometimeReplaced(suffix: string -> string, r: Registry, ops: seq<Operation>, c: Conn)
    decreases |ops|
  {
    ops != [] && ((ReplacesBuiltIn(r, ops[0]) && !SameDatabase(ops[0].conn, c))
                  || SometimeReplaced(suffix, Apply(suffix, r, ops[0]), ops[1..], c))
  }

  /** The built-in connection's database is kept throughout exactly when none is added in its place. */
  lemma {:induction false} AlwaysBuiltInIff(suffix: string -> string, r: Registry, ops: seq<Operation>, c: Conn)
    requires DEFAULT_ID in r.conns && SameDatabase(r.conns[DEFAULT_ID], c)
    ensures AlwaysBuiltIn(suffix, r, ops, c) <==> !SometimeReplaced(suffix, r, ops, c)
    decreases |ops|
  {
    if ops != [] {
      var after := Apply(suffix, r, ops[0]);
      BuiltInKeptIff(suffix, r, ops[0]);
      if SameDatabase(after.conns[DEFAULT_ID], c) {
        AlwaysBuiltInIff(suffix, after, ops[1..], c);
      }
    }
  }

  /** The last connection a run adds under the built-in ID, `c` if it adds none. */
  function LastBuiltIn(suffix: string -> string, r: Registry, ops: seq<Operation>, c: Conn): Conn
    decreases |ops|
  {
    if ops == [] then c
    else LastBuiltIn(suffix, Apply(suffix, r, ops[0]), ops[1..], if ReplacesBuiltIn(r, ops[0]) then ops[0].conn else c)
  }

  /** Nothing but another add under the built-in ID changes what it leads to, and nothing brings the old one back. */
  lemma {:induction false} BuiltInIsLastAdded(suffix: string -> string, r: Registry, ops: seq<Operation>, c: Conn)
    requires DEFAULT_ID in r.conns && SameDatabase(r.conns[DEFAULT_ID], c)
    ensures DEFAULT_ID in Run(suffix, r, ops).conns
    ensures SameDatabase(Run(suffix, r, ops).conns[DEFAULT_ID], LastBuiltIn(suffix, r, ops, c))
    decreases |ops|
  {
    if ops != [] {
      var after := Apply(suffix, r, ops[0]);
      BuiltInKeptIff(suffix, r, ops[0]);
      if ReplacesBuiltIn(r, ops[0]) {
        AddedAsBuiltInIff(suffix, r, ops[0].conn);
        TrimmedStays(DEFAULT_ID);
        BuiltInIsLastAdded(suffix, after, ops[1..], ops[0].conn);
      } else {
        BuiltInIsLastAdded(suffix, after, ops[1..], c);
      }
    }
  }

  /** An instance: a connection added first, shared or private, under the built-in ID. */
  lemma AddUnderBuiltInId(suffix: string -> string, builtIn: Conn, c: Conn)
    requires builtIn.id == DEFAULT_ID && builtIn.owner == "" && c.id == DEFAULT_ID
    ensures Apply(suffix, Initial(builtIn), Add(c)).conns == map[DEFAULT_ID := c]
  {
    TrimmedStays(DEFAULT_ID);
  }

  // ---- Adding private connections ----

  /** Adding a private connection replaces no connection that its session could not see. */
  lemma PrivateAddSparesOthers(suffix: string -> string, r: Registry, c: Conn, id: string)
    requires c.owner != "" && Taken(r, c.owner, id)
    ensures id in Apply(suffix, r, Add(c)).conns && Apply(suffix, r, Add(c)).conns[id] == r.conns[id]
  {
  }

  /** The operation removes no connection and gives none away; what it adds is private. */
  predicate SparesOwners(op: Operation) {
    match op
    case Add(c) => c.owner != ""
    case SetActive(_) => true
    case SetDefault(_) => true
    case SetActiveFor(_, _) => true
    case UnmarkPersisted(_) => true
    case _ => false
  }

  ghost predicate AllSpareOwners(ops: seq<Operation>) {
    forall i | 0 <= i < |ops| :: SparesOwners(ops[i])
  }

  lemma {:induction false} FirstFreeUnique(r: Registry, session: string, id: string, suffix: string, n: nat, free: nat)
    requires 1 <= n <= free && TakenBefore(r, session, id, suffix, free)
    requires TakenBefore(r, session, id, suffix, n)
    requires !Taken(r, session, Variant(id, suffix, free))
    ensures FirstFree(r, session, id, suffix, n) == free
  {
    var other := FirstFree(r, session, id, suffix, n);
    assert !Taken(r, session, Variant(id, suffix, other));
  }

  /** What a session may not see stays so under such operations, and what it holds it keeps. */
  lemma TakenStaysTaken(suffix: string -> string, r: Registry, op: Operation, session: string, id: string)
    requires SparesOwners(op) && session != "" && Taken(r, session, id)
    ensures Taken(Apply(suffix, r, op), session, id)
  {
    if op.Add? && TrimSpace(op.conn.id) != "" && AddedUnder(suffix, r, op.conn) == id {
      assert !Taken(r, op.conn.owner, id);
      assert op.conn.owner == r.conns[id].owner;
    }
  }

  predicate Holds(r: Registry, session: string, id: string) {
    id in r.conns && r.conns[id].owner == session
  }

  lemma HeldStaysHeld(suffix: string -> string, r: Registry, op: Operation, session: string, id: string)
    requires SparesOwners(op) && session != "" && Holds(r, session, id)
    ensures Holds(Apply(suffix, r, op), session, id)
  {
    if op.Add? && TrimSpace(op.conn.id) != "" && AddedUnder(suffix, r, op.conn) == id {
      assert !Taken(r, op.conn.owner, id);
    }
  }

  /** The ID is the n-th variant that the session is offered for `c`. */
  ghost predicate Offered(suffix: string -> string, r: Registry, c: Conn, id: string, n: nat) {
    n >= 1 && Variant(c.id, suffix(c.owner), n) == id && TakenBefore(r, c.owner, c.id, suffix(c.owner), n)
  }

  /** The session holds the ID that it gets for `c`, and all IDs tried before are taken. */
  ghost predicate Settled(suffix: string -> string, r: Registry, c: Conn, id: string) {
    && Holds(r, c.owner, id)
    && (id == c.id || (Taken(r, c.owner, c.id) && exists n :: Offered(suffix, r, c, id, n)))
  }

  lemma SettledIsReused(suffix: string -> string, r: Registry, c: Conn, id: string)
    requires c.owner != "" && Settled(suffix, r, c, id)
    ensures AddedUnder(suffix, r, c) == id
  {
    if id != c.id {
      var n :| Offered(suffix, r, c, id, n);
      FirstFreeUnique(r, c.owner, c.id, suffix(c.owner), 1, n);
    }
  }

  lemma TakenBeforeStays(suffix: string -> string, r: Registry, op: Operation, c: Conn, n: nat)
    requires SparesOwners(op) && c.owner != "" && TakenBefore(r, c.owner, c.id, suffix(c.owner), n)
    ensures TakenBefore(Apply(suffix, r, op), c.owner, c.id, suffix(c.owner), n)
  {
    forall m | 1 <= m < n
      ensures Taken(Apply(suffix, r, op), c.owner, Variant(c.id, suffix(c.owner), m))
    {
      TakenStaysTaken(suffix, r, op, c.owner, Variant(c.id, suffix(c.owner), m));
    }
  }

  lemma AddSettles(suffix: string -> string, r: Registry, c: Conn)
    requires c.owner != "" && TrimSpace(c.id) != ""
    ensures Settled(suffix, Apply(suffix, r, Add(c)), c, AddedUnder(suffix, r, c))
  {
    if Taken(r, c.owner, c.id) {
      var n := FirstFree(r, c.owner, c.id, suffix(c.owner), 1);
      TakenStaysTaken(suffix, r, Add(c), c.owner, c.id);
      TakenBeforeStays(suffix, r, Add(c), c, n);
      assert Offered(suffix, Apply(suffix, r, Add(c)), c, AddedUnder(suffix, r, c), n);
    }
  }

  lemma SettledStays(suffix: string -> string, r: Registry, op: Operation, c: Conn, id: string)
    requires SparesOwners(op) && c.owner != "" && Settled(suffix, r, c, id)
    ensures Settled(suffix, Apply(suffix, r, op), c, id)
  {
    HeldStaysHeld(suffix, r, op, c.owner, id);
    if id != c.id {
      var n :| Offered(suffix, r, c, id, n);
      TakenStaysTaken(suffix, r, op, c.owner, c.id);
      TakenBeforeStays(suffix, r, op, c, n);
      assert Offered(suffix, Apply(suffix, r, op), c, id, n);
    }
  }

  lemma {:induction false} SettledStaysLong(suffix: string -> string, r: Registry, ops: seq<Operation>, c: Conn, id: string)
    requires c.owner != "" && AllSpareOwners(ops) && Settled(suffix, r, c, id)
    ensures Settled(suffix, Run(suffix, r, ops), c, id)
    decreases |ops|
  {
    if ops != [] {
      SettledStays(suffix, r, ops[0], c, id);
      assert AllSpareOwners(ops[1..]) by {
        forall i | 0 <= i < |ops[1..]|
          ensures SparesOwners(ops[1..][i])
        {
          assert ops[1..][i] == ops[i + 1];
        }
      }
      SettledStaysLong(suffix, Apply(suffix, r, ops[0]), ops[1..], c, id);
    }
  }

  /** Adding the same private connection again reuses its ID, unless something was removed or shared in between. */
  lemma RepeatedAddReusesId(suffix: string -> string, r: Registry, c: Conn, between: seq<Operation>)
    requires c.owner != "" && TrimSpace(c.id) != "" && AllSpareOwners(between)
    ensures AddedUnder(suffix, Run(suffix, Apply(suffix, r, Add(c)), between), c) == AddedUnder(suffix, r, c)
  {
    var id := AddedUnder(suffix, r, c);
    AddSettles(suffix, r, c);
    SettledStaysLong(suffix, Apply(suffix, r, Add(c)), between, c, id);
    SettledIsReused(suffix, Run(suffix, Apply(suffix, r, Add(c)), between), c, id);
  }

  // ---- What sessions see ----

  /** The fall-backs and all persisted connections are shared, and every session's choice is visible to it. */
  ghost predicate Isolated(r: Registry)
    requires Sound(r)
  {
    && r.conns[DEFAULT_ID].owner == "" && r.conns[r.active].owner == "" && r.conns[r.defaultId].owner == ""
    && (forall id | id in r.persisted :: r.conns[id].owner == "")
    && (forall s | s in r.chosen :: VisibleTo(r.conns[r.chosen[s]], s))
  }

  ghost predicate ChosenByOthers(r: Registry, session: string, id: string) {
    exists s | s in r.chosen :: s != session && r.chosen[s] == id
  }

  /** The operation puts a private connection where it is a fall-back, persisted or another session's choice. */
  ghost predicate Exposes(suffix: string -> string, r: Registry, op: Operation) {
    match op
    case Add(c) =>
      var id := AddedUnder(suffix, r, c);
      && Failed(r, op).None? && c.owner != ""
      && (id in {DEFAULT_ID, r.active, r.defaultId} || id in r.persisted || ChosenByOthers(r, c.owner, id))
    case SetActive(id) => id in r.conns && r.conns[id].owner != ""
    case SetActiveFor(session, id) =>
      TrimSpace(session) == "" && session != "" && id in r.conns && r.conns[id].owner == session
    case _ => false
  }

  /** Exactly the exposing operations end a registry's isolation. */
  lemma IsolationEndsIff(suffix: string -> string, r: Registry, op: Operation)
    requires Sound(r) && Isolated(r) && (op.Add? ==> !op.conn.closed)
    ensures Sound(Apply(suffix, r, op))
    ensures Isolated(Apply(suffix, r, op)) <==> !Exposes(suffix, r, op)
  {
    ApplyKeepsSound(suffix, r, op);
    match op
    case Add(c) => AddIsolatedIff(suffix, r, c);
    case RebindSession(oldId, newId) =>
      if Rebinds(oldId, newId) {
        RebindKeepsIsolated(r, TrimSpace(oldId), TrimSpace(newId));
      }
    case _ =>
  }

  ghost predicate IsolatedNow(r: Registry) {
    Sound(r) && Isolated(r)
  }

  /** The registry is isolated at every moment of a run. */
  ghost predicate AlwaysIsolated(suffix: string -> string, r: Registry, ops: seq<Operation>)
    decreases |ops|
  {
    IsolatedNow(r) && (ops != [] ==> AlwaysIsolated(suffix, Apply(suffix, r, ops[0]), ops[1..]))
  }

  /** Some operation of a run exposes a private connection when its turn comes. */
  ghost predicate SometimeExposes(suffix: string -> string, r: Registry, ops: seq<Operation>)
    decreases |ops|
  {
    ops != [] && (Exposes(suffix, r, ops[0]) || SometimeExposes(suffix, Apply(suffix, r, ops[0]), ops[1..]))
  }

  /** A run stays isolated throughout exactly when none of its operations exposes a private connection. */
  lemma {:induction false} AlwaysIsolatedIff(suffix: string -> string, r: Registry, ops: seq<Operation>)
    requires IsolatedNow(r) && AddsOpen(ops)
    ensures AlwaysIsolated(suffix, r, ops) <==> !SometimeExposes(suffix, r, ops)
    decreases |ops|
  {
    if ops != [] {
      var after := Apply(suffix, r, ops[0]);
      IsolationEndsIff(suffix, r, ops[0]);
      AddsOpenLater(ops);
      if IsolatedNow(after) {
        AlwaysIsolatedIff(suffix, after, ops[1..]);
      } else {
        assert !AlwaysIsolated(suffix, after, ops[1..]);
      }
    }
  }

  /** A private connection added under the built-in ID becomes every session's fall-back. */
  lemma PrivateAddUnderBuiltInId(suffix: string -> string, builtIn: Conn, c: Conn, session: string)
    requires builtIn.id == DEFAULT_ID && builtIn.owner == "" && c.id == DEFAULT_ID && c.owner != ""
    ensures var after := Apply(suffix, Initial(builtIn), Add(c));
      ActiveFor(after, session) == Some(c) && (session != c.owner ==> !VisibleTo(c, session))
  {
    TrimmedStays(DEFAULT_ID);
  }

  lemma AddIsolatedIff(suffix: string -> string, r: Registry, c: Conn)
    requires Sound(r) && Isolated(r) && !c.closed && Sound(Apply(suffix, r, Add(c)))
    ensures Isolated(Apply(suffix, r, Add(c))) <==> !Exposes(suffix, r, Add(c))
  {
    var after, id := Apply(suffix, r, Add(c)), AddedUnder(suffix, r, c);
    if Failed(r, Add(c)).None? {
      forall s | s in r.chosen
        ensures VisibleTo(after.conns[after.chosen[s]], s) <==> (r.chosen[s] == id ==> c.owner in {"", s})
      {
      }
      if c.owner != "" && ChosenByOthers(r, c.owner, id) {
        var s :| s in r.chosen && s != c.owner && r.chosen[s] == id;
        assert !VisibleTo(after.conns[after.chosen[s]], s);
      }
    }
  }

  lemma RebindKeepsIsolated(r: Registry, oldId: string, newId: string)
    requires Sound(r) && Isolated(r) && oldId != "" && newId != "" && oldId != newId
    ensures Sound(Reowned(r, oldId, newId)) && Isolated(Reowned(r, oldId, newId))
  {
    var after := Reowned(r, oldId, newId);
    forall s | s in after.chosen
      ensures VisibleTo(after.conns[after.chosen[s]], s)
    {
      if oldId in r.chosen && s == newId {
        assert VisibleTo(r.conns[r.chosen[oldId]], oldId);
      } else {
        assert VisibleTo(r.conns[r.chosen[s]], s);
      }
    }
  }

  /** Every session always has an active connection, which it may see while the registry is isolated. */
  lemma ActiveIsVisible(r: Registry, session: string)
    requires Sound(r)
    ensures ActiveFor(r, session).Some?
    ensures Isolated(r) ==> VisibleTo(ActiveFor(r, session).value, TrimSpace(session))
  {
  }

  // ---- What operations mean for sessions ----

  /** When an operation is refused, and why. */
  lemma RefusedIff(r: Registry, op: Operation)
    ensures match op
      case Remove(id) =>
        && (Failed(r, op) == Some(BuiltIn) <==> id == "default")
        && (Failed(r, op) == Some(NotFound) <==> id != "default" && id !in r.conns)
      case Add(c) => Failed(r, op).Some? <==> TrimSpace(c.id) == ""
      case SetActive(id) => Failed(r, op).Some? <==> id !in r.conns
      case SetDefault(id) =>
        && (Failed(r, op) == Some(NotFound) <==> id !in r.conns)
        && (Failed(r, op) == Some(Private) <==> id in r.conns && r.conns[id].owner != "")
      case SetActiveFor(session, id) =>
        Failed(r, op).Some? <==> id !in r.conns || r.conns[id].owner !in {"", session}
      case _ => Failed(r, op).None?
  {
  }

  /** The session has chosen a connection that is there. */
  predicate HasChoice(r: Registry, session: string) {
    TrimSpace(session) != "" && Choice(r, TrimSpace(session)) in r.conns
  }

  /** A new active or default connection becomes that of every session without a choice, and of no other. */
  lemma FallBackChanges(suffix: string -> string, r: Registry, op: Operation, session: string)
    requires (op.SetActive? || op.SetDefault?) && Failed(r, op).None?
    ensures var after := Apply(suffix, r, op);
      && ActiveFor(after, session) == (if HasChoice(r, session) then ActiveFor(r, session) else Some(r.conns[op.id]))
      && after.defaultId == (if op.SetDefault? then op.id else r.defaultId)
      && after.conns == r.conns && after.chosen == r.chosen && after.persisted == r.persisted
  {
  }

  /** A removed connection is found by nobody; sessions that had chosen it fall back, and so does the fall-back itself. */
  lemma RemovedIsGone(suffix: string -> string, r: Registry, id: string, session: string)
    requires Sound(r) && Failed(r, Remove(id)).None?
    ensures var after := Apply(suffix, r, Remove(id));
      && (forall k :: k in after.conns <==> k in r.conns && k != id)
      && (forall k | k in after.conns :: after.conns[k] == r.conns[k])
      && (forall k :: k in after.persisted <==> k in r.persisted && k != id)
      && ActiveFor(after, session) == (if HasChoice(r, session) && Choice(r, TrimSpace(session)) != id then ActiveFor(r, session)
                                       else Some(r.conns[if r.active == id then "default" else r.active]))
      && after.defaultId == if r.defaultId == id then "default" else r.defaultId
  {
  }

  /** Marking a connection as persisted shows it to every session, and changes no other connection. */
  lemma PersistShares(suffix: string -> string, r: Registry, id: string, session: string)
    ensures var after := Apply(suffix, r, MarkPersisted(id));
      && after.conns.Keys == r.conns.Keys
      && (id in r.conns ==> VisibleTo(after.conns[id], session) && after.conns[id].(owner := r.conns[id].owner) == r.conns[id])
      && (forall k | k in r.conns && k != id :: after.conns[k] == r.conns[k])
      && (forall k :: k in after.persisted <==> k in r.persisted || (k == id && id in r.conns))
      && after.(conns := r.conns, persisted := r.persisted) == r
  {
  }

  /** Taking the mark away changes nothing but the mark. */
  lemma UnmarkKeepsShared(suffix: string -> string, r: Registry, id: string)
    ensures var after := Apply(suffix, r, UnmarkPersisted(id));
      && (forall k :: k in after.persisted <==> k in r.persisted && k != id)
      && after.(persisted := r.persisted) == r
  {
  }

  /** A session's choice matters to that session alone; without a session it is the fall-back that is chosen. */
  lemma ChoiceIsOnesOwn(suffix: string -> string, r: Registry, session: string, id: string, other: string)
    requires Failed(r, SetActiveFor(session, id)).None? && TrimSpace(other) != session
    ensures var after := Apply(suffix, r, SetActiveFor(session, id));
      && after.conns == r.conns && after.defaultId == r.defaultId && after.persisted == r.persisted
      && ActiveFor(after, other) == if TrimSpace(session) == "" && !HasChoice(r, other) then Some(r.conns[id])
                                    else ActiveFor(r, other)
  {
  }

  /** A look-up by trimmed ID finds exactly what is there and shared or the session's own. */
  lemma FoundIff(r: Registry, session: string, id: string, c: Conn)
    ensures GetFor(r, session, id) == Some(c)
      <==> TrimSpace(id) in r.conns && r.conns[TrimSpace(id)] == c && (c.owner == "" || c.owner == session)
  {
  }

  /** For any text as a session: what it chose is found again exactly when it is trimmed or blank, or nothing changed. */
  lemma ChoiceIsActiveIff(suffix: string -> string, r: Registry, session: string, id: string)
    requires Sound(r) && Failed(r, SetActiveFor(session, id)).None?
    ensures var after := Apply(suffix, r, SetActiveFor(session, id));
      ActiveFor(after, session) == Some(r.conns[id])
      <==> TrimSpace(session) in {"", session} || ActiveFor(r, session) == Some(r.conns[id])
  {
  }

  predicate SessionRune(c: char) {
    'a' <= c <= 'z' || 'A' <= c <= 'Z' || '0' <= c <= '9' || c == '-' || c == '_'
  }

  /** What requests use as a session: a trimmed cookie of admissible length and characters, or none. */
  function SanitizedSession(cookie: string): string {
    var s := TrimSpace(cookie);
    if 16 <= |s| <= 128 && (forall i | 0 <= i < |s| :: SessionRune(s[i])) then s else ""
  }

  lemma SanitizedIsTrimmed(cookie: string)
    ensures TrimSpace(SanitizedSession(cookie)) == SanitizedSession(cookie)
  {
    TrimIsTrimmed(cookie);
    TrimmedStays(SanitizedSession(cookie));
  }

  /** A request's choice of connection is always found again, and never exposes a private connection. */
  lemma ChoiceIsFound(suffix: string -> string, r: Registry, cookie: string, id: string)
    requires Sound(r) && Failed(r, SetActiveFor(SanitizedSession(cookie), id)).None?
    ensures var op := SetActiveFor(SanitizedSession(cookie), id);
      && ActiveFor(Apply(suffix, r, op), SanitizedSession(cookie)) == Some(r.conns[id])
      && !Exposes(suffix, r, op)
  {
    SanitizedIsTrimmed(cookie);
    ChoiceIsActiveIff(suffix, r, SanitizedSession(cookie), id);
  }

  /** Rebinding hands over what one session owns, sees and has chosen, and nothing of any other session. */
  lemma RebindMovesOneSession(suffix: string -> string, r: Registry, oldId: string, newId: string, session: string, id: string)
    requires Rebinds(oldId, newId) && id in r.conns
    ensures var after := Apply(suffix, r, RebindSession(oldId, newId));
      var o, n := TrimSpace(oldId), TrimSpace(newId);
      && after.conns.Keys == r.conns.Keys
      && after.conns[id] == r.conns[id].(owner := if r.conns[id].owner == o then n else r.conns[id].owner)
      && (session !in {o, n} ==> (VisibleTo(after.conns[id], session) <==> VisibleTo(r.conns[id], session)))
      && (VisibleTo(after.conns[id], n) <==> VisibleTo(r.conns[id], o) || VisibleTo(r.conns[id], n))
      && (session !in {o, n} ==> Choice(after, session) == Choice(r, session))
      && (o in r.chosen ==> Choice(after, n) == Choice(r, o) && o !in after.chosen)
      && (o !in r.chosen ==> after.chosen == r.chosen)
      && after.(conns := r.conns, chosen := r.chosen) == r
  {
  }

  /** A session keeps its active connection when it is rebound. */
  lemma RebindKeepsActive(suffix: string -> string, r: Registry, oldId: string, newId: string)
    requires Sound(r) && Rebinds(oldId, newId) && TrimSpace(oldId) in r.chosen
    ensures var after := Apply(suffix, r, RebindSession(oldId, newId));
      ActiveFor(after, newId) == Some(Rebound(ActiveFor(r, oldId).value, TrimSpace(oldId), TrimSpace(newId)))
  {
  }

  /** A private connection is found by its own session and by no other. */
  lemma PrivateIsPrivate(suffix: string -> string, r: Registry, c: Conn, session: string)
    requires c.owner != "" && TrimSpace(c.id) != "" && session != c.owner
    requires TrimSpace(AddedUnder(suffix, r, c)) == AddedUnder(suffix, r, c)
    ensures var id := AddedUnder(suffix, r, c);
      var after := Apply(suffix, r, Add(c));
      GetFor(after, c.owner, id) == Some(c.(id := id)) && GetFor(after, session, id) == None
  {
  }
}
