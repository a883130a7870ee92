/**
 * `src/users.rs`: user records, their one-line text form, and the `Users`
 * registry that maps user ids to records and hands out sessions.
 *
 * Password hashing and checking (Argon2) and the random source are outside
 * the model: a hash arrives as a string, a check as a function value, and
 * random picks as a sequence of indices into the Base58 alphabet.
 */
module Users {
  import opened Wrappers
  import opened Text
  import Cookie

  // ---------------------------------------------------------------------
  // Identifiers

  /** `n` consecutive ASCII characters from `first` on. */
  function CharRange(first: char, n: nat): (r: string)
    requires first as int + n <= 0x80
    ensures |r| == n
    ensures forall k :: 0 <= k < n ==> r[k] as int == first as int + k
  {
    seq(n, k requires 0 <= k < n => (first as int + k) as char)
  }

  /**
   * The Base58 alphabet `123456789ABCDEFGHJKLMNPQRSTUVWXYZabcdefghijkmnopqrstuvwxyz`:
   * the digits and letters without `0`, `O`, `I` and `l`, in ASCII order.
   */
  const Base58: string :=
    CharRange('1', 9) + CharRange('A', 8) + CharRange('J', 5) + CharRange('P', 11) +
    CharRange('a', 11) + CharRange('m', 14)

  const UserIdLength: nat := 6
  const SessionIdLength: nat := 6

  /** Picks the random source may make: `count` indices into the alphabet. */
  predicate ValidDraws(draws: seq<nat>, count: nat)
  {
    |draws| == count && forall k :: 0 <= k < |draws| ==> draws[k] < |Base58|
  }

  /** `random_base58`: `count` characters, each picked from the Base58 alphabet. */
  function RandomBase58(count: nat, draws: seq<nat>): (r: string)
    requires ValidDraws(draws, count)
    ensures |r| == count
    ensures forall k :: 0 <= k < |r| ==> r[k] in Base58
  {
    seq(count, k requires 0 <= k < count => Base58[draws[k]])
  }

  /** Every string over the alphabet is a possible result. */
  lemma RandomBase58Reaches(s: string)
    requires forall k :: 0 <= k < |s| ==> s[k] in Base58
    ensures exists draws :: ValidDraws(draws, |s|) && RandomBase58(|s|, draws) == s
  {
    var draws := seq(|s|, k requires 0 <= k < |s| => Find(Base58, s[k]).value);
    assert ValidDraws(draws, |s|);
    assert RandomBase58(|s|, draws) == s;
  }

  predicate IsAlphanumeric(c: char)
  {
    '0' <= c <= '9' || 'A' <= c <= 'Z' || 'a' <= c <= 'z'
  }

  /** The alphabet has 58 distinct letters and digits, so it holds none of the record's separators. */
  lemma Base58Alphabet()
    ensures |Base58| == 58
    ensures forall i, j :: 0 <= i < j < |Base58| ==> Base58[i] < Base58[j]
    ensures forall k :: 0 <= k < |Base58| ==> IsAlphanumeric(Base58[k])
  {
  }

  datatype UserId = UserId(value: string)
  datatype SessionId = SessionId(value: string)

  /** `generate_user_id`. */
  function GenerateUserId(draws: seq<nat>): (r: UserId)
    requires ValidDraws(draws, UserIdLength)
    ensures |r.value| == UserIdLength
    ensures forall k :: 0 <= k < |r.value| ==> r.value[k] in Base58
  {
    UserId(RandomBase58(UserIdLength, draws))
  }

  /** `generate_session_id`. */
  function GenerateSessionId(draws: seq<nat>): (r: SessionId)
    requires ValidDraws(draws, SessionIdLength)
    ensures |r.value| == SessionIdLength
    ensures forall k :: 0 <= k < |r.value| ==> r.value[k] in Base58
  {
    SessionId(RandomBase58(SessionIdLength, draws))
  }

  // ---------------------------------------------------------------------
  // Records

  /** What callers learn about a user. */
  datatype UserStub = UserStub(email: Option<string>, id: UserId, username: string)

  datatype Session = Session(stub: UserStub, sid: SessionId)

  /** A stored user: the password only as its hash, and the ids of its open sessions. */
  datatype UserEntry = UserEntry(
    id: UserId,
    email: Option<string>,
    username: string,
    passwordHash: string,
    sessions: seq<SessionId>)

  /** `UserEntry::new_user`: a user without sessions. */
  function NewUser(email: Option<string>, username: string, passwordHash: string, id: UserId): (e: UserEntry)
    ensures e.id == id && e.email == email && e.username == username && e.passwordHash == passwordHash
    ensures e.sessions == []
  {
    UserEntry(id, email, username, passwordHash, [])
  }

  /** `UserEntry::stub`. */
  function Stub(e: UserEntry): (s: UserStub)
    ensures s.email == e.email && s.id == e.id && s.username == e.username
  {
    UserStub(e.email, e.id, e.username)
  }

  /**
   * `UserEntry::new_session`: the entry with `sid` appended to its sessions
   * and nothing else changed, and the session naming the entry's stub.
   */
  function NewSession(e: UserEntry, sid: SessionId): (r: (UserEntry, Session))
    ensures r.0.sessions == e.sessions + [sid]
    ensures r.0.(sessions := e.sessions) == e
    ensures Stub(r.0) == Stub(e)
    ensures r.1 == Session(Stub(e), sid)
  {
    (e.(sessions := e.sessions + [sid]), Session(Stub(e), sid))
  }

  // ---------------------------------------------------------------------
  // The record line: Display

  /** The email field: `<email> `, or `<> ` when there is none. */
  function EmailField(email: Option<string>): string
  {
    match email
    case None => "<> "
    case Some(address) => "<" + address + "> "
  }

  /** Each session id followed by a comma. */
  function SessionList(sessions: seq<SessionId>): string
  {
    if sessions == [] then [] else sessions[0].value + "," + SessionList(sessions[1..])
  }

  lemma {:induction false} SessionListAppend(sessions: seq<SessionId>, sid: SessionId)
    ensures SessionList(sessions + [sid]) == SessionList(sessions) + sid.value + ","
  {
    if sessions != [] {
      assert (sessions + [sid])[1..] == sessions[1..] + [sid];
      SessionListAppend(sessions[1..], sid);
    } else {
      assert SessionList([sid]) == sid.value + "," + SessionList([]);
    }
  }

  /** The line `Display` writes: `id <email> username hash sessions=s1,s2,`. */
  function EntryLine(e: UserEntry): string
  {
    e.id.value + " " + EmailField(e.email) + e.username + " " + e.passwordHash + " " + "sessions=" + SessionList(e.sessions)
  }

  /** `Display for UserEntry`: the fields, then the session ids one by one, each with its comma. */
  method Display(e: UserEntry) returns (line: string)
    ensures line == EntryLine(e)
  {
    line := e.id.value + " ";
    match e.email {
      case Some(email) => line := line + "<" + email + "> ";
      case None => line := line + "<> ";
    }
    line := line + e.username + " ";
    line := line + e.passwordHash + " ";
    var sessionStr := "";
    for i := 0 to |e.sessions|
      invariant sessionStr == SessionList(e.sessions[..i])
    {
      SessionListAppend(e.sessions[..i], e.sessions[i]);
      assert e.sessions[..i + 1] == e.sessions[..i] + [e.sessions[i]];
      sessionStr := sessionStr + e.sessions[i].value;
      sessionStr := sessionStr + ",";
    }
    assert e.sessions[..|e.sessions|] == e.sessions;
    line := line + "sessions=" + sessionStr;
  }

  // ---------------------------------------------------------------------
  // Reading a record line: FromStr

  /**
   * Why a line is not a record: `Malformed` where `from_str` returns
   * `Err(())`, `Panicked` where it would panic (an `unwrap` on a missing
   * field, or a slice past the end or inside a character).
   */
  datatype EntryParseError = Malformed | Panicked

  /** The non-empty pieces, as session ids. */
  function SessionIds(pieces: seq<string>): (r: seq<SessionId>)
    ensures |r| <= |pieces|
    ensures forall k :: 0 <= k < |r| ==> r[k].value != []
    ensures forall p :: SessionId(p) in r <==> p in pieces && p != []
  {
    if pieces == [] then []
    else if pieces[0] == [] then SessionIds(pieces[1..])
    else [SessionId(pieces[0])] + SessionIds(pieces[1..])
  }

  /** `FromStr for UserEntry`: the id runs up to the first space. */
  function ParseEntry(line: string): (r: Result<UserEntry, EntryParseError>)
    ensures ' ' !in line ==> r == Err(Malformed)
  {
    match SplitOnce(line, ' ')
    case None => Err(Malformed)
    case Some((id, rest)) => ParseAfterId(UserId(id), rest)
  }

  /** After the id: the email field must open with `<`. */
  function ParseAfterId(id: UserId, s: string): (r: Result<UserEntry, EntryParseError>)
    ensures (s == [] || s[0] != '<') ==> r == Err(Malformed)
  {
    if s == [] || s[0] != '<' then Err(Malformed) else ParseEmail(id, s[1..])
  }

  /**
   * After the `<`: the email runs up to the first `>`, empty meaning none;
   * the two characters after that `>` are skipped.
   */
  function ParseEmail(id: UserId, s: string): (r: Result<UserEntry, EntryParseError>)
    ensures '>' !in s ==> r == Err(Malformed)
  {
    match Find(s, '>')
    case None => Err(Malformed)
    case Some(idx) =>
      // The source skips two bytes after `>`: past the end, or into a
      // character wider than one byte, that slice panics.
      if idx + 1 == |s| || s[idx + 1] as int >= 0x80 then Err(Panicked)
      else
        var email := s[..idx];
        ParseFields(id, if email == [] then None else Some(email), s[idx + 2..])
  }

  /**
   * The rest of the line: username, hash and session list, separated by
   * spaces (a missing one is an `unwrap` panic, extra ones are ignored);
   * the session list after `sessions=`, with empty ids dropped.
   */
  function ParseFields(id: UserId, email: Option<string>, s: string): (r: Result<UserEntry, EntryParseError>)
    ensures |Split(s, ' ')| < 3 ==> r == Err(Panicked)
    ensures |Split(s, ' ')| >= 3 && !("sessions=" <= Split(s, ' ')[2]) ==> r == Err(Malformed)
    ensures r.Ok? <==> |Split(s, ' ')| >= 3 && "sessions=" <= Split(s, ' ')[2]
    ensures r.Ok? ==> r.value.id == id && r.value.email == email
    ensures r.Ok? ==> var f := Split(s, ' ');
      r.value.username == f[0] && r.value.passwordHash == f[1] &&
      r.value.sessions == SessionIds(Split(f[2][|"sessions="|..], ','))
  {
    var splits := Split(s, ' ');
    if |splits| < 3 then Err(Panicked)
    else match StripPrefix(splits[2], "sessions=")
      case None => Err(Malformed)
      case Some(sessions) => Ok(UserEntry(id, email, splits[0], splits[1], SessionIds(Split(sessions, ','))))
  }

  // ---------------------------------------------------------------------
  // Writing a record and reading it back

  /** A session id that survives the round trip: not empty, no `,` and no space. */
  predicate WritableSession(sid: SessionId)
  {
    sid.value != [] && ',' !in sid.value && ' ' !in sid.value
  }

  /** Generated ids are made of letters and digits, so they hold none of the separators of a record line. */
  lemma GeneratedIdsWritable(userDraws: seq<nat>, sessionDraws: seq<nat>)
    requires ValidDraws(userDraws, UserIdLength) && ValidDraws(sessionDraws, SessionIdLength)
    ensures var uid := GenerateUserId(userDraws).value; ' ' !in uid && ',' !in uid && '>' !in uid
    ensures WritableSession(GenerateSessionId(sessionDraws))
  {
    Base58Alphabet();
    var uid := GenerateUserId(userDraws).value;
    var sid := GenerateSessionId(sessionDraws).value;
    assert forall k :: 0 <= k < |uid| ==> IsAlphanumeric(uid[k]) by {
      forall k | 0 <= k < |uid| ensures IsAlphanumeric(uid[k]) {
        assert uid[k] == Base58[userDraws[k]];
      }
    }
    assert forall k :: 0 <= k < |sid| ==> IsAlphanumeric(sid[k]) by {
      forall k | 0 <= k < |sid| ensures IsAlphanumeric(sid[k]) {
        assert sid[k] == Base58[sessionDraws[k]];
      }
    }
  }

  /**
   * An entry whose fields hold none of the separators of its line: no space
   * in the id, username or hash, no `>` in the email (which is not empty),
   * and writable session ids.
   */
  predicate Writable(e: UserEntry)
  {
    && ' ' !in e.id.value
    && (e.email.Some? ==> e.email.value != [] && '>' !in e.email.value)
    && ' ' !in e.username
    && ' ' !in e.passwordHash
    && forall k :: 0 <= k < |e.sessions| ==> WritableSession(e.sessions[k])
  }

  /** The session list splits at its commas into the ids and one empty piece, which is dropped. */
  lemma {:induction false} SessionListReadsBack(sessions: seq<SessionId>)
    requires forall k :: 0 <= k < |sessions| ==> WritableSession(sessions[k])
    ensures SessionIds(Split(SessionList(sessions), ',')) == sessions
    ensures ' ' !in SessionList(sessions)
  {
    if sessions == [] {
      assert Split([], ',') == [[]];
    } else {
      var v := sessions[0].value;
      var rest := SessionList(sessions[1..]);
      assert WritableSession(sessions[0]);
      SessionListReadsBack(sessions[1..]);
      assert SessionList(sessions) == v + [','] + rest;
      SplitAtFirst(v, ',', rest);
      var pieces := [v] + Split(rest, ',');
      assert pieces[0] == v && pieces[1..] == Split(rest, ',');
      assert [sessions[0]] + sessions[1..] == sessions;
    }
  }

  /** Three space-free fields joined by spaces split back into those fields. */
  lemma SplitThreeFields(a: string, b: string, c: string)
    requires ' ' !in a && ' ' !in b && ' ' !in c
    ensures Split(a + [' '] + (b + [' '] + c), ' ') == [a, b, c]
  {
    assert Split(b + [' '] + c, ' ') == [b, c] by {
      SplitAtFirst(b, ' ', c);
      SplitNoSeparator(c, ' ');
    }
    SplitAtFirst(a, ' ', b + [' '] + c);
  }

  /** The text after the `<` of the email field: the address, `>`, a space, and the rest of the line. */
  lemma ReadEmailField(address: string, fields: string)
    requires '>' !in address
    ensures var s := address + ['>'] + ([' '] + fields);
      Find(s, '>') == Some(|address|) && s[|address| + 1] == ' ' &&
      s[|address| + 2..] == fields && s[..|address|] == address
  {
    FindAt(address, '>', [' '] + fields);
  }

  /** The email's address, empty when there is none. */
  function Address(email: Option<string>): string
  {
    if email.Some? then email.value else []
  }

  /** The fields after the email: username, hash and session list. */
  function Fields(e: UserEntry): string
  {
    e.username + [' '] + (e.passwordHash + [' '] + ("sessions=" + SessionList(e.sessions)))
  }

  lemma EntryLineShape(e: UserEntry)
    ensures EntryLine(e) == e.id.value + [' '] + (['<'] + (Address(e.email) + ['>'] + ([' '] + Fields(e))))
  {
  }

  /** The fields of an entry without separators read back as that entry. */
  lemma ParseFieldsReadsBack(e: UserEntry)
    requires Writable(e)
    ensures ParseFields(e.id, e.email, Fields(e)) == Ok(e)
  {
    var list := SessionList(e.sessions);
    assert SessionIds(Split(list, ',')) == e.sessions && ' ' !in list by {
      SessionListReadsBack(e.sessions);
    }
    assert Split(Fields(e), ' ') == [e.username, e.passwordHash, "sessions=" + list] by {
      SplitThreeFields(e.username, e.passwordHash, "sessions=" + list);
    }
    assert StripPrefix("sessions=" + list, "sessions=") == Some(list);
  }

  /** The email field `address> ` is read and skipped. */
  lemma ParseEmailReadsBack(id: UserId, address: string, fields: string)
    requires '>' !in address
    ensures ParseEmail(id, address + ['>'] + ([' '] + fields)) ==
      ParseFields(id, if address == [] then None else Some(address), fields)
  {
    ReadEmailField(address, fields);
  }

  /** `FromStr` reads back what `Display` writes, for an entry without separators in its fields. */
  lemma ParseEntryLine(e: UserEntry)
    requires Writable(e)
    ensures ParseEntry(EntryLine(e)) == Ok(e)
  {
    var address := Address(e.email);
    var s := address + ['>'] + ([' '] + Fields(e));
    assert ParseEntry(EntryLine(e)) == ParseAfterId(e.id, ['<'] + s) by {
      EntryLineShape(e);
      SplitOnceAt(e.id.value, ' ', ['<'] + s);
    }
    assert (['<'] + s)[1..] == s;
    ParseEmailReadsBack(e.id, address, Fields(e));
    assert (if address == [] then None else Some(address)) == e.email;
    ParseFieldsReadsBack(e);
  }

  /** A line whose `>` is its last character makes the source slice past the end. */
  lemma EmailAtEndPanics(id: string, address: string)
    requires ' ' !in id && '>' !in address
    ensures ParseEntry(id + " <" + address + ">") == Err(Panicked)
  {
    var s := address + ">";
    SplitOnceAt(id, ' ', ['<'] + s);
    assert id + " <" + address + ">" == id + [' '] + (['<'] + s);
    assert (['<'] + s)[1..] == s;
    FindAt(address, '>', []);
    assert address + ['>'] + [] == s;
  }

  // ---------------------------------------------------------------------
  // The registry

  /** Every entry is stored under its own id. */
  predicate KeyedById(users: map<UserId, UserEntry>)
  {
    forall uid :: uid in users ==> users[uid].id == uid
  }

  /** The entries the lines of a file leave in `users`, and whether a line stopped the load with a panic. */
  function LoadLines(users: map<UserId, UserEntry>, lines: seq<string>): (r: (map<UserId, UserEntry>, bool))
    decreases |lines|
    ensures KeyedById(users) ==> KeyedById(r.0)
  {
    if lines == [] then (users, false)
    else match ParseEntry(lines[0])
      case Err(_) => (users, true)
      case Ok(e) => LoadLines(users[e.id := e], lines[1..])
  }

  /** The map left by inserting the entries one after another, each under its id. */
  function InsertAll(users: map<UserId, UserEntry>, entries: seq<UserEntry>): (r: map<UserId, UserEntry>)
    ensures forall uid :: uid in r <==> uid in users || exists k :: 0 <= k < |entries| && entries[k].id == uid
    decreases |entries|
  {
    if entries == [] then users else InsertAll(users[entries[0].id := entries[0]], entries[1..])
  }

  /** `Vec::remove` at the position of the first `x`. */
  function RemoveFirst<T(==)>(s: seq<T>, x: T): (r: seq<T>)
    requires x in s
    ensures |r| == |s| - 1
    ensures multiset(r) == multiset(s) - multiset{x}
    ensures exists i :: 0 <= i < |s| && s[i] == x && x !in s[..i] && r == s[..i] + s[i + 1..]
  {
    var i := Find(s, x).value;
    assert s == s[..i] + [x] + s[i + 1..];
    s[..i] + s[i + 1..]
  }

  /** Loading lines that all parse inserts their entries in order, whatever form the lines have. */
  lemma {:induction false} LoadLinesParsed(users: map<UserId, UserEntry>, lines: seq<string>, entries: seq<UserEntry>)
    requires |lines| == |entries|
    requires forall k :: 0 <= k < |lines| ==> ParseEntry(lines[k]) == Ok(entries[k])
    ensures LoadLines(users, lines) == (InsertAll(users, entries), false)
    decreases |lines|
  {
    if lines != [] {
      var e := entries[0];
      assert LoadLines(users, lines) == LoadLines(users[e.id := e], lines[1..]) by {
        assert ParseEntry(lines[0]) == Ok(e);
      }
      forall k | 0 <= k < |lines| - 1
        ensures ParseEntry(lines[1..][k]) == Ok(entries[1..][k])
      {
        assert lines[1..][k] == lines[k + 1] && entries[1..][k] == entries[k + 1];
      }
      LoadLinesParsed(users[e.id := e], lines[1..], entries[1..]);
    }
  }

  /** The id of an entry inserted later than every other entry with that id is bound to it. */
  lemma {:induction false} InsertAllLastWins(users: map<UserId, UserEntry>, entries: seq<UserEntry>, i: nat)
    requires i < |entries|
    requires forall j :: i < j < |entries| ==> entries[j].id != entries[i].id
    ensures entries[i].id in InsertAll(users, entries)
    ensures InsertAll(users, entries)[entries[i].id] == entries[i]
    decreases |entries|
  {
    if i == 0 {
      InsertAllKeeps(users[entries[0].id := entries[0]], entries[1..], entries[0].id);
    } else {
      InsertAllLastWins(users[entries[0].id := entries[0]], entries[1..], i - 1);
    }
  }

  /** Inserting entries with other ids leaves an id's binding alone. */
  lemma {:induction false} InsertAllKeeps(users: map<UserId, UserEntry>, entries: seq<UserEntry>, id: UserId)
    requires id in users
    requires forall j :: 0 <= j < |entries| ==> entries[j].id != id
    ensures id in InsertAll(users, entries) && InsertAll(users, entries)[id] == users[id]
    decreases |entries|
  {
    if entries != [] {
      InsertAllKeeps(users[entries[0].id := entries[0]], entries[1..], id);
    }
  }

  /** The record lines of `entries`, in order. */
  function EntryLines(entries: seq<UserEntry>): (r: seq<string>)
    decreases |entries|
    ensures |r| == |entries|
    ensures forall k :: 0 <= k < |r| ==> r[k] == EntryLine(entries[k])
  {
    if entries == [] then [] else [EntryLine(entries[0])] + EntryLines(entries[1..])
  }

  /** The file `save` writes for `entries`: one record line each, each ended by a newline. */
  function SavedText(entries: seq<UserEntry>): string
  {
    Unlines(EntryLines(entries))
  }

  /** A non-empty session list ends with a comma. */
  lemma {:induction false} SessionListEnd(sessions: seq<SessionId>)
    requires sessions != []
    ensures SessionList(sessions) != [] && SessionList(sessions)[|SessionList(sessions)| - 1] == ','
  {
    var rest := SessionList(sessions[1..]);
    assert SessionList(sessions) == sessions[0].value + "," + rest;
    if sessions[1..] != [] {
      SessionListEnd(sessions[1..]);
    }
  }

  /** A record line ends with the `=` of `sessions=` or with the comma after the last session. */
  lemma EntryLineEnd(e: UserEntry)
    ensures var line := EntryLine(e); line != [] && line[|line| - 1] in {',', '='}
  {
    var head := e.id.value + " " + EmailField(e.email) + e.username + " " + e.passwordHash + " " + "sessions=";
    assert EntryLine(e) == head + SessionList(e.sessions);
    if e.sessions != [] {
      SessionListEnd(e.sessions);
    }
  }

  /**
   * Loading a file written from writable entries without newlines in
   * their lines does not panic, and inserts the entries in order.
   */
  lemma LoadSavedText(users: map<UserId, UserEntry>, entries: seq<UserEntry>)
    requires forall k :: 0 <= k < |entries| ==> Writable(entries[k]) && '\n' !in EntryLine(entries[k])
    ensures LoadLines(users, Lines(SavedText(entries))) == (InsertAll(users, entries), false)
  {
    var lines := EntryLines(entries);
    forall k | 0 <= k < |lines|
      ensures lines[k] == [] || lines[k][|lines[k]| - 1] != '\r'
    {
      EntryLineEnd(entries[k]);
    }
    LinesUnlines(lines);
    LoadEntryLines(users, entries);
  }

  /** The record lines of writable entries load back as those entries, inserted in order. */
  lemma {:induction false} LoadEntryLines(users: map<UserId, UserEntry>, entries: seq<UserEntry>)
    requires forall k :: 0 <= k < |entries| ==> Writable(entries[k])
    ensures LoadLines(users, EntryLines(entries)) == (InsertAll(users, entries), false)
    decreases |entries|
  {
    if entries != [] {
      assert ParseEntry(EntryLines(entries)[0]) == Ok(entries[0]) by {
        ParseEntryLine(entries[0]);
      }
      assert EntryLines(entries)[1..] == EntryLines(entries[1..]);
      LoadEntryLines(users[entries[0].id := entries[0]], entries[1..]);
    }
  }

  class Users {
    var users: map<UserId, UserEntry>

    ghost predicate Valid()
      reads this
    {
      KeyedById(users)
    }

    /** The ids of the users called `username`. */
    function Named(username: string): set<UserId>
      reads this
    {
      set uid | uid in users && users[uid].username == username
    }

    /** Some user holds session `sid`. */
    ghost predicate HasSession(sid: SessionId)
      reads this
    {
      exists uid :: uid in users && sid in users[uid].sessions
    }

    /** `Users::new`: no users. */
    constructor ()
      ensures Valid()
      ensures users == map[]
    {
      users := map[];
    }

    /**
     * `Users::register`: a new user with one session, stored under its
     * fresh id, replacing any user that already had that id.
     */
    method Register(email: Option<string>, username: string, passwordHash: string, idDraws: seq<nat>, sidDraws: seq<nat>)
      returns (session: Session)
      requires Valid()
      requires ValidDraws(idDraws, UserIdLength) && ValidDraws(sidDraws, SessionIdLength)
      modifies this
      ensures Valid()
      ensures var e := NewUser(email, username, passwordHash, GenerateUserId(idDraws));
        var sid := GenerateSessionId(sidDraws);
        users == old(users)[e.id := NewSession(e, sid).0] && session == NewSession(e, sid).1
      ensures session.stub == UserStub(email, GenerateUserId(idDraws), username)
    {
      var entry := NewUser(email, username, passwordHash, GenerateUserId(idDraws));
      var pair := NewSession(entry, GenerateSessionId(sidDraws));
      entry, session := pair.0, pair.1;
      users := users[entry.id := entry];
    }

    /**
     * `Users::login`: one of the users called `username` (the map's order
     * decides which), with a new session when `verify` accepts the
     * password against that user's hash.
     */
    method Login(username: string, password: string, verify: (string, string) -> bool, sidDraws: seq<nat>)
      returns (r: Option<Session>)
      requires Valid() && ValidDraws(sidDraws, SessionIdLength)
      modifies this
      ensures Valid()
      ensures r.None? ==> users == old(users)
      ensures r.Some? ==> var uid := r.value.stub.id;
        && uid in old(Named(username))
        && verify(old(users)[uid].passwordHash, password)
        && var (entry, session) := NewSession(old(users)[uid], GenerateSessionId(sidDraws));
           users == old(users)[uid := entry] && r == Some(session)
      ensures old(Named(username)) == {} ==> r.None?
      ensures (forall uid :: uid in old(Named(username)) ==> !verify(old(users)[uid].passwordHash, password)) ==> r.None?
      ensures (old(Named(username)) != {} &&
               forall uid :: uid in old(Named(username)) ==> verify(old(users)[uid].passwordHash, password)) ==> r.Some?
    {
      if uid :| uid in Named(username) {
        var entry := users[uid];
        if verify(entry.passwordHash, password) {
          var pair := NewSession(entry, GenerateSessionId(sidDraws));
          users := users[uid := pair.0];
          return Some(pair.1);
        }
      }
      return None;
    }

    /** `Users::authenticate`: as `Login`, but the stub of the user and no new session. */
    method Authenticate(username: string, password: string, verify: (string, string) -> bool)
      returns (r: Option<UserStub>)
      requires Valid()
      ensures r.Some? ==> r.value.id in Named(username) && r.value == Stub(users[r.value.id])
      ensures r.Some? ==> verify(users[r.value.id].passwordHash, password)
      ensures Named(username) == {} ==> r.None?
      ensures (forall uid :: uid in Named(username) ==> !verify(users[uid].passwordHash, password)) ==> r.None?
      ensures (Named(username) != {} &&
               forall uid :: uid in Named(username) ==> verify(users[uid].passwordHash, password)) ==> r.Some?
    {
      if uid :| uid in Named(username) {
        var entry := users[uid];
        if verify(entry.passwordHash, password) {
          return Some(Stub(entry));
        }
      }
      return None;
    }

    /**
     * `Users::logout`: the first matching user in the map's order (any user
     * holding `sid`) loses its first occurrence of `sid`, and its stub is
     * returned; without such a user nothing changes.
     */
    method Logout(sid: SessionId) returns (r: Option<UserStub>)
      requires Valid()
      modifies this
      ensures Valid()
      ensures r.None? <==> !old(HasSession(sid))
      ensures r.None? ==> users == old(users)
      ensures r.Some? ==> var uid := r.value.id;
        && uid in old(users) && sid in old(users)[uid].sessions
        && r.value == Stub(old(users)[uid])
        && users == old(users)[uid := old(users)[uid].(sessions := RemoveFirst(old(users)[uid].sessions, sid))]
    {
      var todo := users.Keys;
      while todo != {}
        invariant todo <= users.Keys
        invariant users == old(users)
        invariant forall uid :: uid in users && uid !in todo ==> sid !in users[uid].sessions
        decreases todo
      {
        var uid :| uid in todo;
        var entry := users[uid];
        match Find(entry.sessions, sid) {
          case Some(idx) =>
            users := users[uid := entry.(sessions := entry.sessions[..idx] + entry.sessions[idx + 1..])];
            return Some(Stub(entry));
          case None =>
        }
        todo := todo - {uid};
      }
      return None;
    }

    /** `Users::session_by_id`: a session for some user holding `sid`, if there is one. */
    method SessionById(sid: SessionId) returns (r: Option<Session>)
      requires Valid()
      ensures r.Some? <==> HasSession(sid)
      ensures r.Some? ==>
        && r.value.sid == sid && r.value.stub.id in users
        && sid in users[r.value.stub.id].sessions && r.value.stub == Stub(users[r.value.stub.id])
    {
      var todo := users.Keys;
      while todo != {}
        invariant todo <= users.Keys
        invariant forall uid :: uid in users && uid !in todo ==> sid !in users[uid].sessions
        decreases todo
      {
        var uid :| uid in todo;
        if sid in users[uid].sessions {
          return Some(Session(Stub(users[uid]), sid));
        }
        todo := todo - {uid};
      }
      return None;
    }

    /** `Users::stub_by_session`: the stub of some user holding `sid`, if there is one. */
    method StubBySession(sid: SessionId) returns (r: Option<UserStub>)
      requires Valid()
      ensures r.Some? <==> HasSession(sid)
      ensures r.Some? ==>
        && r.value.id in users && sid in users[r.value.id].sessions
        && r.value == Stub(users[r.value.id])
    {
      var todo := users.Keys;
      while todo != {}
        invariant todo <= users.Keys
        invariant forall uid :: uid in users && uid !in todo ==> sid !in users[uid].sessions
        decreases todo
      {
        var uid :| uid in todo;
        if sid in users[uid].sessions {
          return Some(Stub(users[uid]));
        }
        todo := todo - {uid};
      }
      return None;
    }

    /** `Users::stub_by_uid`: a lookup by key. */
    function StubByUid(uid: UserId): (r: Option<UserStub>)
      reads this
      requires Valid()
      ensures r.Some? <==> uid in users
      ensures r.Some? ==> r.value.id == uid && r.value == Stub(users[uid])
    {
      if uid in users then Some(Stub(users[uid])) else None
    }

    /** `Users::stub_by_username`: the stubs of all users called `username`, one each, in the map's order. */
    method StubByUsername(username: string) returns (matches: seq<UserStub>)
      requires Valid()
      ensures |matches| == |Named(username)|
      ensures forall k :: 0 <= k < |matches| ==>
        matches[k].id in Named(username) && matches[k] == Stub(users[matches[k].id])
      ensures forall uid :: uid in Named(username) ==> Stub(users[uid]) in matches
    {
      matches := [];
      ghost var found: set<UserId> := {};
      var todo := users.Keys;
      while todo != {}
        invariant todo <= users.Keys
        invariant forall uid :: uid in found <==> uid in users && uid !in todo && users[uid].username == username
        invariant |matches| == |found|
        invariant forall k :: 0 <= k < |matches| ==> matches[k].id in found && matches[k] == Stub(users[matches[k].id])
        invariant forall uid :: uid in found ==> Stub(users[uid]) in matches
        decreases todo
      {
        var uid :| uid in todo;
        if users[uid].username == username {
          matches := matches + [Stub(users[uid])];
          found := found + {uid};
        }
        todo := todo - {uid};
      }
      assert found == Named(username);
    }

    /**
     * `Users::load` on the text of the file: each line parsed and inserted
     * under its id, a later line replacing an earlier one with the same id;
     * a line that does not parse stops the load with a panic, keeping the
     * lines before it.
     */
    method Load(contents: string) returns (panicked: bool)
      requires Valid()
      modifies this
      ensures Valid()
      ensures (users, panicked) == LoadLines(old(users), Lines(contents))
    {
      var lines := Lines(contents);
      for n := 0 to |lines|
        invariant LoadLines(old(users), lines) == LoadLines(users, lines[n..])
        invariant KeyedById(users)
      {
        assert lines[n..][0] == lines[n] && lines[n..][1..] == lines[n + 1..];
        match ParseEntry(lines[n]) {
          case Err(_) =>
            return true;
          case Ok(e) =>
            users := users[e.id := e];
        }
      }
      assert lines[|lines|..] == [];
      return false;
    }
  }

  // ---------------------------------------------------------------------
  // Session cookies

  /** The `sid` cookie both session headers build: secure, HTTP-only, path `/`. */
  function SessionCookie(sid: SessionId, maxAge: nat): (r: Cookie.SetCookie)
    ensures r.key == "sid" && r.value == sid.value && r.expiration == None
    ensures r.secure && r.httponly
    ensures r.maxAge == Some(Cookie.Duration(maxAge, 0)) && r.path == Some("/")
  {
    Cookie.New("sid", sid.value)
      .Secure(true)
      .HttpOnly(true)
      .MaxAge(Some(Cookie.Duration(maxAge, 0)))
      .Path(Some("/"))
  }

  /** The attributes of the session cookie, in header order. */
  lemma SessionCookieAttributes(sid: SessionId, maxAge: nat)
    ensures Cookie.Attributes(SessionCookie(sid, maxAge)) ==
      [Cookie.MaxAgeSeconds(maxAge), Cookie.SecureFlag, Cookie.HttpOnlyFlag, Cookie.PathAttribute("/")]
  {
  }

  /** The three attributes after `Max-Age` as the header spells them. */
  lemma FixedSegments()
    ensures Cookie.Segments([Cookie.SecureFlag, Cookie.HttpOnlyFlag, Cookie.PathAttribute("/")]) ==
      "; Secure; HttpOnly; Path=/"
  {
    assert Cookie.Segments([Cookie.PathAttribute("/")]) == "; Path=/" + Cookie.Segments([]);
    assert Cookie.Segments([Cookie.HttpOnlyFlag, Cookie.PathAttribute("/")]) == "; HttpOnly" + "; Path=/";
  }

  lemma SessionCookieSegments(maxAge: nat)
    ensures Cookie.Segments([Cookie.MaxAgeSeconds(maxAge), Cookie.SecureFlag, Cookie.HttpOnlyFlag, Cookie.PathAttribute("/")]) ==
      "; Max-Age=" + DecimalString(maxAge) + "; Secure; HttpOnly; Path=/"
  {
    var attributes := [Cookie.MaxAgeSeconds(maxAge), Cookie.SecureFlag, Cookie.HttpOnlyFlag, Cookie.PathAttribute("/")];
    assert attributes[1..] == [Cookie.SecureFlag, Cookie.HttpOnlyFlag, Cookie.PathAttribute("/")];
    FixedSegments();
  }

  /** The session cookie's header: its id, its maximum age in seconds and the three fixed attributes. */
  lemma SessionCookieHeader(sid: SessionId, maxAge: nat)
    ensures Cookie.Header(SessionCookie(sid, maxAge)) ==
      "sid=" + sid.value + "; Max-Age=" + DecimalString(maxAge) + "; Secure; HttpOnly; Path=/"
  {
    SessionCookieAttributes(sid, maxAge);
    SessionCookieSegments(maxAge);
  }

  /** How long a session cookie is kept: thirty days, in seconds. */
  const SessionMaxAge: nat := 60 * 60 * 24 * 30

  /** Thirty days in seconds, written out. */
  lemma ThirtyDaysDecimal()
    ensures DecimalString(SessionMaxAge) == "2592000"
  {
    assert DecimalString(2) == "2";
    assert DecimalString(25) == "25";
    assert DecimalString(259) == "259";
    assert DecimalString(2592) == "2592";
    assert DecimalString(25920) == "25920";
    assert DecimalString(259200) == "259200";
  }

  /** `session_set_cookie`: the `sid` cookie kept for 30 days. */
  method SessionSetCookie(sid: SessionId) returns (header: string)
    ensures header == "sid=" + sid.value + "; Max-Age=" + DecimalString(SessionMaxAge) + "; Secure; HttpOnly; Path=/"
  {
    header := Cookie.AsString(SessionCookie(sid, SessionMaxAge));
    SessionCookieHeader(sid, SessionMaxAge);
  }

  /** `session_clear_cookie`: the `sid` cookie with a maximum age of zero, which makes the browser drop it. */
  method SessionClearCookie(sid: SessionId) returns (header: string)
    ensures header == "sid=" + sid.value + "; Max-Age=" + DecimalString(0) + "; Secure; HttpOnly; Path=/"
  {
    header := Cookie.AsString(SessionCookie(sid, 0));
    SessionCookieHeader(sid, 0);
  }
}
