/**
 * The account rules of accounts.py: the password strength test, the users
 * table with its unique names and hashed passwords, signing in, and the
 * high-score table with its keep-the-best rule and its leaderboard. The two
 * SQLite tables are held as sequences of rows, in insertion order.
 */
module Accounts {
  import opened Options
  import opened Settings

  // ---------------------------------------------------------------------------
  // Password strength

  /**
   * `special_chars`. The backslash is one of them, because `\]` is not an
   * escape and keeps it; the double quote and the space are not.
   */
  const SPECIAL_CHARS: string := "!#$%&'()*+,-./:;<=>?@[\\]^_`{|}~"

  predicate IsLower(c: char) { 'a' <= c <= 'z' }
  predicate IsUpper(c: char) { 'A' <= c <= 'Z' }
  predicate IsDigit(c: char) { '0' <= c <= '9' }
  predicate IsSpecial(c: char) { c in SPECIAL_CHARS }

  /** Some character of `p` is of the kind `want`. */
  predicate Has(p: string, want: char -> bool) {
    exists k :: 0 <= k < |p| && want(p[k])
  }

  /**
   * A strong password: at least 8 characters, among them a lowercase letter,
   * an uppercase letter, a digit and a special character.
   */
  predicate Strong(p: string) {
    |p| >= 8 && Has(p, IsLower) && Has(p, IsUpper) && Has(p, IsDigit) && Has(p, IsSpecial)
  }

  /** A longer prefix has a character of a kind iff the shorter one has or the new character is of it. */
  lemma HasExtend(p: string, i: nat, want: char -> bool)
    requires i < |p|
    ensures Has(p[..i + 1], want) <==> Has(p[..i], want) || want(p[i])
  {
    if Has(p[..i + 1], want) && !want(p[i]) {
      var k :| 0 <= k < i + 1 && want(p[..i + 1][k]);
      assert p[..i][k] == p[k];
    }
    if Has(p[..i], want) {
      var k :| 0 <= k < i && want(p[..i][k]);
      assert p[..i + 1][k] == p[k];
    }
    if want(p[i]) {
      assert p[..i + 1][i] == p[i];
    }
  }

  /** The backslash counts as special; the double quote and the space do not. */
  lemma SpecialSet()
    ensures IsSpecial('\\') && !IsSpecial('"') && !IsSpecial(' ')
  {
    forall k | 0 <= k < |SPECIAL_CHARS|
      ensures '!' <= SPECIAL_CHARS[k] <= '~' && SPECIAL_CHARS[k] != '"'
    {
    }
  }

  /** So a password can be strong with a backslash as its only special character. */
  lemma BackslashPassword()
    ensures Strong("Passw0rd\\")
  {
    var s := "Passw0rd\\";
    assert IsUpper(s[0]) && IsLower(s[1]) && IsDigit(s[5]) && IsSpecial(s[8]);
  }

  // ---------------------------------------------------------------------------
  // The tables

  /** A row of `Users`: the key, the unique name and the password's digest. */
  datatype UserRow = UserRow(id: nat, name: string, password: string)

  /** A row of `Highscores`: the score, the date and time it was made, and whose it is. */
  datatype ScoreRow = ScoreRow(highscore: int, date: string, time: string, userId: nat)

  /** Some user is called `name`. */
  predicate NameTaken(users: seq<UserRow>, name: string) {
    exists k :: 0 <= k < |users| && users[k].name == name
  }

  /** The first user row with `name` and the password digest `digest`, by index: what `fetchone` returns. */
  function FindLogin(users: seq<UserRow>, name: string, digest: string): (r: Option<nat>)
    ensures r.Some? ==> r.value < |users| && users[r.value].name == name && users[r.value].password == digest
    ensures r.None? <==> forall k :: 0 <= k < |users| ==> !(users[k].name == name && users[k].password == digest)
  {
    if users == [] then None
    else if users[0].name == name && users[0].password == digest then Some(0)
    else
      match FindLogin(users[1..], name, digest)
      case None =>
        assert forall k :: 1 <= k < |users| ==> users[k] == users[1..][k - 1];
        None
      case Some(i) => Some(i + 1)
  }

  /** The first row of `user_id` in the high-score table, by index. */
  function FindScore(rows: seq<ScoreRow>, uid: nat): (r: Option<nat>)
    ensures r.Some? ==> r.value < |rows| && rows[r.value].userId == uid
    ensures r.Some? ==> forall k :: 0 <= k < r.value ==> rows[k].userId != uid
    ensures r.None? <==> forall k :: 0 <= k < |rows| ==> rows[k].userId != uid
  {
    if rows == [] then None
    else if rows[0].userId == uid then Some(0)
    else
      match FindScore(rows[1..], uid)
      case None =>
        assert forall k :: 1 <= k < |rows| ==> rows[k] == rows[1..][k - 1];
        None
      case Some(i) =>
        assert forall k :: 1 <= k < i + 1 ==> rows[k] == rows[1..][k - 1];
        Some(i + 1)
  }

  /** Each user has at most one high-score row. */
  predicate OneRowEach(rows: seq<ScoreRow>) {
    forall i, j :: 0 <= i < j < |rows| ==> rows[i].userId != rows[j].userId
  }

  /** The names are unique and the keys increase in table order, each below the next key to hand out. */
  predicate UsersSound(users: seq<UserRow>, nextId: nat) {
    && (forall i, j :: 0 <= i < j < |users| ==> users[i].name != users[j].name)
    && (forall i, j :: 0 <= i < j < |users| ==> users[i].id < users[j].id)
    && (forall k :: 0 <= k < |users| ==> users[k].id < nextId)
  }

  /** The row stored for `uid`, if any. */
  function Stored(rows: seq<ScoreRow>, uid: nat): Option<ScoreRow> {
    match FindScore(rows, uid)
    case None => None
    case Some(i) => Some(rows[i])
  }

  /** The row at `i` is the one stored for its user when no row before it is that user's. */
  lemma StoredAt(rows: seq<ScoreRow>, i: nat)
    requires i < |rows| && forall k :: 0 <= k < i ==> rows[k].userId != rows[i].userId
    ensures Stored(rows, rows[i].userId) == Some(rows[i])
  {
  }

  /**
   * `update_highscore` for a signed-in user `uid` on the table: a first score
   * is added; a later one replaces the row, date and time with it, only
   * when it is strictly greater.
   */
  function Record(rows: seq<ScoreRow>, uid: nat, score: int, date: string, time: string): seq<ScoreRow> {
    match FindScore(rows, uid)
    case None => rows + [ScoreRow(score, date, time, uid)]
    case Some(i) => if score > rows[i].highscore then rows[i := ScoreRow(score, date, time, uid)] else rows
  }

  /**
   * After a score is recorded, the user's row holds the better of the old
   * best and the new score; a score that does not beat the best changes
   * nothing, so a tie keeps the earlier date and time; every other user's
   * row is as it was; and each user still has at most one row.
   */
  lemma RecordBest(rows: seq<ScoreRow>, uid: nat, score: int, date: string, time: string)
    requires OneRowEach(rows)
    ensures var after := Record(rows, uid, score, date, time);
      && OneRowEach(after)
      && (Stored(rows, uid).None? ==> Stored(after, uid) == Some(ScoreRow(score, date, time, uid)))
      && (Stored(rows, uid).Some? && score > Stored(rows, uid).value.highscore ==>
            Stored(after, uid) == Some(ScoreRow(score, date, time, uid)))
      && (Stored(rows, uid).Some? && score <= Stored(rows, uid).value.highscore ==> after == rows)
      && forall u :: u != uid ==> Stored(after, u) == Stored(rows, u)
  {
    var after := Record(rows, uid, score, date, time);
    var row := ScoreRow(score, date, time, uid);
    match FindScore(rows, uid)
    case None =>
      assert after == rows + [row];
      StoredAt(after, |rows|);
      forall u | u != uid
        ensures Stored(after, u) == Stored(rows, u)
      {
        match FindScore(rows, u)
        case None =>
          assert FindScore(after, u).None?;
        case Some(j) =>
          assert after[j] == rows[j];
          StoredAt(after, j);
      }
    case Some(i) =>
      if score > rows[i].highscore {
        assert after == rows[i := row];
        StoredAt(after, i);
        forall u | u != uid
          ensures Stored(after, u) == Stored(rows, u)
        {
          match FindScore(rows, u)
          case None =>
            assert FindScore(after, u).None?;
          case Some(j) =>
            assert after[j] == rows[j];
            StoredAt(after, j);
        }
      }
  }

  /** A score offered to `update_highscore`, with the date and time it is offered at. */
  datatype Submission = Submission(score: int, date: string, time: string)

  /** `update_highscore` called for `uid` with each submission in turn. */
  function Replay(rows: seq<ScoreRow>, uid: nat, subs: seq<Submission>): seq<ScoreRow> {
    if subs == [] then rows
    else
      var last := subs[|subs| - 1];
      Record(Replay(rows, uid, subs[..|subs| - 1]), uid, last.score, last.date, last.time)
  }

  /** The first submission with the highest score. */
  function FirstBest(subs: seq<Submission>): (i: nat)
    requires |subs| > 0
    ensures i < |subs|
    ensures forall k :: 0 <= k < |subs| ==> subs[k].score <= subs[i].score
    ensures forall k :: 0 <= k < i ==> subs[k].score < subs[i].score
  {
    if |subs| == 1 then 0
    else
      var i := FirstBest(subs[..|subs| - 1]);
      assert forall k :: 0 <= k < |subs| - 1 ==> subs[k] == subs[..|subs| - 1][k];
      if subs[|subs| - 1].score > subs[i].score then |subs| - 1 else i
  }

  /**
   * The keep-the-best rule over a run of scores: starting with no row, the
   * user's row ends with the highest score offered, dated when it was
   * first offered, and the other users' rows are untouched.
   */
  lemma {:induction false} ReplayKeepsBest(rows: seq<ScoreRow>, uid: nat, subs: seq<Submission>)
    requires OneRowEach(rows) && Stored(rows, uid).None? && |subs| > 0
    ensures var best := subs[FirstBest(subs)];
      Stored(Replay(rows, uid, subs), uid) == Some(ScoreRow(best.score, best.date, best.time, uid))
    ensures OneRowEach(Replay(rows, uid, subs))
    ensures forall u :: u != uid ==> Stored(Replay(rows, uid, subs), u) == Stored(rows, u)
  {
    var init, last := subs[..|subs| - 1], subs[|subs| - 1];
    if |subs| == 1 {
      assert init == [];
      RecordBest(rows, uid, last.score, last.date, last.time);
    } else {
      ReplayKeepsBest(rows, uid, init);
      var before := Replay(rows, uid, init);
      RecordBest(before, uid, last.score, last.date, last.time);
      var i := FirstBest(init);
      assert forall k :: 0 <= k < |init| ==> subs[k] == init[k];
    }
  }

  // ---------------------------------------------------------------------------
  // The leaderboard

  /** A row of the join of `Users` and `Highscores`, with the columns the ordering uses. */
  datatype Entry = Entry(name: string, highscore: int, date: string, time: string)

  /** The name of the user keyed `id`, if there is one. */
  function UserName(users: seq<UserRow>, id: nat): Option<string> {
    if users == [] then None
    else if users[0].id == id then Some(users[0].name)
    else UserName(users[1..], id)
  }

  /** A high-score row joined with its user, if its user exists. */
  function JoinOf(users: seq<UserRow>, row: ScoreRow): Option<Entry> {
    match UserName(users, row.userId)
    case None => None
    case Some(name) => Some(Entry(name, row.highscore, row.date, row.time))
  }

  /** `Users JOIN Highscores ON user_id`, in high-score table order. */
  function Joined(users: seq<UserRow>, rows: seq<ScoreRow>): seq<Entry> {
    if rows == [] then []
    else
      Joined(users, rows[..|rows| - 1])
        + match JoinOf(users, rows[|rows| - 1]) case None => [] case Some(e) => [e]
  }

  /** The join holds one entry for each high-score row whose user exists, and nothing else. */
  lemma {:induction false} JoinedMembers(users: seq<UserRow>, rows: seq<ScoreRow>, e: Entry)
    ensures e in Joined(users, rows) <==> exists k :: 0 <= k < |rows| && JoinOf(users, rows[k]) == Some(e)
  {
    if rows != [] {
      var init := rows[..|rows| - 1];
      JoinedMembers(users, init, e);
      if e in Joined(users, init) {
        var k :| 0 <= k < |init| && JoinOf(users, init[k]) == Some(e);
        assert rows[k] == init[k];
      }
      if exists k :: 0 <= k < |rows| && JoinOf(users, rows[k]) == Some(e) {
        var k :| 0 <= k < |rows| && JoinOf(users, rows[k]) == Some(e);
        if k < |init| {
          assert init[k] == rows[k];
        }
      }
    }
  }

  /**
   * SQLite's ordering of text: by character codes, a proper prefix first.
   * On the fixed-width `%Y-%m-%d` and `%H:%M:%S` stamps it is time order.
   */
  predicate TextBefore(a: string, b: string) {
    if a == [] then b != []
    else if b == [] then false
    else a[0] < b[0] || (a[0] == b[0] && TextBefore(a[1..], b[1..]))
  }

  lemma {:induction false} TextBeforeIrreflexive(a: string)
    ensures !TextBefore(a, a)
  {
    if a != [] {
      TextBeforeIrreflexive(a[1..]);
    }
  }

  lemma {:induction false} TextBeforeTransitive(a: string, b: string, c: string)
    requires TextBefore(a, b) && TextBefore(b, c)
    ensures TextBefore(a, c)
  {
    if a != [] && b != [] && c != [] && a[0] == b[0] && b[0] == c[0] {
      TextBeforeTransitive(a[1..], b[1..], c[1..]);
    }
  }

  /** `ORDER BY highscore DESC, score_date ASC, score_time ASC`: `a` comes strictly before `b`. */
  predicate Before(a: Entry, b: Entry) {
    || a.highscore > b.highscore
    || (a.highscore == b.highscore && TextBefore(a.date, b.date))
    || (a.highscore == b.highscore && a.date == b.date && TextBefore(a.time, b.time))
  }

  /** No entry comes strictly before itself. */
  lemma BeforeIrreflexive(a: Entry)
    ensures !Before(a, a)
  {
    TextBeforeIrreflexive(a.date);
    TextBeforeIrreflexive(a.time);
  }

  /** The ordering is transitive. */
  lemma BeforeTransitive(a: Entry, b: Entry, c: Entry)
    requires Before(a, b) && Before(b, c)
    ensures Before(a, c)
  {
    if a.highscore == b.highscore && b.highscore == c.highscore {
      if TextBefore(a.date, b.date) && TextBefore(b.date, c.date) {
        TextBeforeTransitive(a.date, b.date, c.date);
      } else if a.date == b.date && b.date == c.date {
        TextBeforeTransitive(a.time, b.time, c.time);
      }
    }
  }

  /** No entry comes strictly before an entry earlier in the list. */
  predicate Ranked(s: seq<Entry>) {
    forall i, j :: 0 <= i < j < |s| ==> !Before(s[j], s[i])
  }

  /** `x` placed after every entry it does not come strictly before. */
  function Insert(x: Entry, s: seq<Entry>): seq<Entry> {
    if s == [] then [x]
    else if Before(x, s[0]) then [x] + s
    else [s[0]] + Insert(x, s[1..])
  }

  /** Inserting adds `x` and nothing else. */
  lemma {:induction false} InsertAdds(x: Entry, s: seq<Entry>)
    ensures multiset(Insert(x, s)) == multiset(s) + multiset{x}
  {
    if s != [] && !Before(x, s[0]) {
      InsertAdds(x, s[1..]);
      assert s == [s[0]] + s[1..];
    }
  }

  lemma RankedTail(s: seq<Entry>)
    requires Ranked(s) && s != []
    ensures Ranked(s[1..])
  {
    var tail := s[1..];
    forall i, j | 0 <= i < j < |tail|
      ensures !Before(tail[j], tail[i])
    {
      assert tail[j] == s[j + 1] && tail[i] == s[i + 1];
    }
  }

  /** An entry that comes strictly before the head of a ranked list can go first. */
  lemma InsertFirst(x: Entry, s: seq<Entry>)
    requires Ranked(s) && s != [] && Before(x, s[0])
    ensures Ranked([x] + s)
  {
    var r := [x] + s;
    forall j | 1 <= j < |r|
      ensures !Before(r[j], x)
    {
      assert r[j] == s[j - 1];
      if Before(s[j - 1], x) {
        BeforeTransitive(s[j - 1], x, s[0]);
        if j == 1 {
          BeforeIrreflexive(s[0]);
        }
      }
    }
    forall i, j | 0 <= i < j < |r|
      ensures !Before(r[j], r[i])
    {
      if i > 0 {
        assert r[i] == s[i - 1] && r[j] == s[j - 1];
      }
    }
  }

  /** The head of a ranked list stays first when `x`, which does not come strictly before it, joins the rest. */
  lemma InsertBehind(x: Entry, s: seq<Entry>, rest: seq<Entry>)
    requires Ranked(s) && s != [] && !Before(x, s[0])
    requires Ranked(rest) && multiset(rest) == multiset(s[1..]) + multiset{x}
    ensures Ranked([s[0]] + rest)
  {
    var r := [s[0]] + rest;
    forall j | 0 <= j < |rest|
      ensures !Before(rest[j], s[0])
    {
      assert rest[j] in multiset(rest);
      if rest[j] != x {
        assert rest[j] in multiset(s[1..]);
        var m :| 0 <= m < |s[1..]| && s[1..][m] == rest[j];
        assert s[1..][m] == s[m + 1];
      }
    }
    forall i, j | 0 <= i < j < |r|
      ensures !Before(r[j], r[i])
    {
      if i > 0 {
        assert r[i] == rest[i - 1] && r[j] == rest[j - 1];
      } else {
        assert r[j] == rest[j - 1];
      }
    }
  }

  /** Inserting into a ranked list keeps it ranked. */
  lemma {:induction false} InsertRanked(x: Entry, s: seq<Entry>)
    requires Ranked(s)
    ensures Ranked(Insert(x, s))
  {
    if s != [] {
      if Before(x, s[0]) {
        InsertFirst(x, s);
      } else {
        RankedTail(s);
        InsertRanked(x, s[1..]);
        InsertAdds(x, s[1..]);
        InsertBehind(x, s, Insert(x, s[1..]));
      }
    }
  }

  /** The entries ranked by insertion, in table order, so that equal entries keep their order. */
  function Rank(s: seq<Entry>): seq<Entry> {
    if s == [] then [] else Insert(s[|s| - 1], Rank(s[..|s| - 1]))
  }

  /** Ranking reorders the entries and nothing else. */
  lemma {:induction false} RankSorts(s: seq<Entry>)
    ensures multiset(Rank(s)) == multiset(s) && Ranked(Rank(s))
  {
    if s != [] {
      var init := s[..|s| - 1];
      RankSorts(init);
      InsertAdds(s[|s| - 1], Rank(init));
      InsertRanked(s[|s| - 1], Rank(init));
      assert s == init + [s[|s| - 1]];
    }
  }

  /** The leaderboard keeps at most ten entries. */
  const LEADERBOARD_SIZE: int := 10

  /** The first ten entries of the ranking. */
  function Top(s: seq<Entry>): (top: seq<Entry>)
    ensures |top| == Min(LEADERBOARD_SIZE, |s|)
  {
    var ranked := Rank(s);
    RankSorts(s);
    assert |ranked| == |multiset(ranked)| == |s|;
    ranked[..Min(LEADERBOARD_SIZE, |s|)]
  }

  /** Cutting a ranked list in two: nothing in the back comes strictly before anything in the front. */
  lemma RankedCut(ranked: seq<Entry>, n: nat)
    requires Ranked(ranked) && n <= |ranked|
    ensures Ranked(ranked[..n])
    ensures multiset(ranked) - multiset(ranked[..n]) == multiset(ranked[n..])
    ensures forall e, r :: e in ranked[..n] && r in ranked[n..] ==> !Before(r, e)
  {
    assert ranked == ranked[..n] + ranked[n..];
    forall e, r | e in ranked[..n] && r in ranked[n..]
      ensures !Before(r, e)
    {
      var i :| 0 <= i < n && ranked[..n][i] == e;
      var j :| 0 <= j < |ranked| - n && ranked[n..][j] == r;
      assert ranked[i] == e && ranked[n + j] == r;
    }
  }

  /**
   * The leaderboard holds the ten best entries, or all if there are fewer,
   * ranked; and no entry it leaves out comes strictly before one it holds.
   */
  lemma TopIsBest(s: seq<Entry>)
    ensures var top := Top(s);
      && |top| == Min(LEADERBOARD_SIZE, |s|) && Ranked(top)
      && multiset(top) <= multiset(s)
      && forall e, r :: e in top && r in multiset(s) - multiset(top) ==> !Before(r, e)
  {
    var ranked := Rank(s);
    RankSorts(s);
    RankedCut(ranked, |Top(s)|);
  }

  /** What `fetchall` returns: each entry's name and score. */
  function Pairs(s: seq<Entry>): (board: seq<(string, int)>)
    ensures |board| == |s| && forall k :: 0 <= k < |s| ==> board[k] == (s[k].name, s[k].highscore)
  {
    seq(|s|, k requires 0 <= k < |s| => (s[k].name, s[k].highscore))
  }

  // ---------------------------------------------------------------------------
  // The store

  /** `UserData`: the two tables, the user signed in, and the hash of passwords. */
  class UserData {
    var users: seq<UserRow>
    var scores: seq<ScoreRow>
    /** The next key `AUTOINCREMENT` hands out. */
    var nextId: nat
    /** `current_user`: the key of the user signed in. */
    var currentUser: Option<nat>
    /** The password digest (SHA-256 in hex), a parameter of the model. */
    const hash: string -> string

    /** The tables keep their constraints, and the user signed in exists. */
    ghost predicate Valid()
      reads this
    {
      && UsersSound(users, nextId) && OneRowEach(scores)
      && (currentUser.Some? ==> exists k :: 0 <= k < |users| && users[k].id == currentUser.value)
    }

    /** `UserData()`: the tables as earlier runs left them (empty on the first run); nobody is signed in. */
    constructor (users: seq<UserRow>, scores: seq<ScoreRow>, nextId: nat, hash: string -> string)
      requires UsersSound(users, nextId) && OneRowEach(scores)
      ensures Valid() && currentUser == None
      ensures this.users == users && this.scores == scores && this.nextId == nextId && this.hash == hash
    {
      this.users, this.scores, this.nextId := users, scores, nextId;
      this.hash := hash;
      currentUser := None;
    }

    /** `check_strength` */
    static method CheckStrength(password: string) returns (strong: bool)
      ensures strong <==> Strong(password)
    {
      var hasUpper, hasLower, hasDigit, hasSpecial := false, false, false, false;
      if |password| >= 8 {
        for i := 0 to |password|
          invariant hasLower <==> Has(password[..i], IsLower)
          invariant hasUpper <==> Has(password[..i], IsUpper)
          invariant hasDigit <==> Has(password[..i], IsDigit)
          invariant hasSpecial <==> Has(password[..i], IsSpecial)
        {
          var c := password[i];
          HasExtend(password, i, IsLower);
          HasExtend(password, i, IsUpper);
          HasExtend(password, i, IsDigit);
          HasExtend(password, i, IsSpecial);
          if IsLower(c) {
            hasLower := true;
          }
          if IsUpper(c) {
            hasUpper := true;
          }
          if IsDigit(c) {
            hasDigit := true;
          }
          if c in SPECIAL_CHARS {
            hasSpecial := true;
          }
        }
        assert password[..|password|] == password;
        if hasUpper && hasLower && hasDigit && hasSpecial {
          return true;
        }
      }
      return false;
    }

    /**
     * `create_user`: the account is added, with the digest of its password
     * and the next key, unless the name is taken, which the `UNIQUE`
     * constraint refuses.
     */
    method CreateUser(name: string, password: string) returns (created: bool)
      requires Valid()
      modifies this`users, this`nextId
      ensures Valid()
      ensures created <==> !NameTaken(old(users), name)
      ensures created ==> users == old(users) + [UserRow(old(nextId), name, hash(password))] && nextId == old(nextId) + 1
      ensures !created ==> users == old(users) && nextId == old(nextId)
    {
      var digest := hash(password);
      created := !exists k :: 0 <= k < |users| && users[k].name == name;
      if created {
        var before := users;
        users := users + [UserRow(nextId, name, digest)];
        nextId := nextId + 1;
        assert forall k :: 0 <= k < |before| ==> users[k] == before[k];
      }
    }

    /**
     * `check_login`: true iff some account has the name and the digest of
     * the password, which then becomes the user signed in; otherwise the
     * user signed in stays as it was.
     */
    method CheckLogin(name: string, password: string) returns (ok: bool)
      requires Valid()
      modifies this`currentUser
      ensures Valid()
      ensures ok <==> exists k :: 0 <= k < |users| && users[k].name == name && users[k].password == hash(password)
      ensures ok ==> exists k :: 0 <= k < |users| && users[k].name == name && users[k].password == hash(password)
                                && currentUser == Some(users[k].id)
      ensures !ok ==> currentUser == old(currentUser)
    {
      var found := FindLogin(users, name, hash(password));
      match found
      case None =>
        ok := false;
      case Some(i) =>
        currentUser := Some(users[i].id);
        ok := true;
    }

    /**
     * `update_highscore`: nothing when nobody is signed in; otherwise the
     * score is recorded for the user signed in, stamped with `date` and
     * `time` (the clock's reading, formatted).
     */
    method UpdateHighscore(score: int, date: string, time: string)
      requires Valid()
      modifies this`scores
      ensures Valid()
      ensures currentUser.None? ==> scores == old(scores)
      ensures currentUser.Some? ==> scores == Record(old(scores), currentUser.value, score, date, time)
    {
      if currentUser.None? {
        return;
      }
      var uid := currentUser.value;
      RecordBest(scores, uid, score, date, time);
      match FindScore(scores, uid)
      case None =>
        scores := scores + [ScoreRow(score, date, time, uid)];
      case Some(i) =>
        if score > scores[i].highscore {
          scores := scores[i := ScoreRow(score, date, time, uid)];
        }
    }

    /** `get_leaderboard`: the names and scores of the ten best entries of the join, best first. */
    function GetLeaderboard(): (board: seq<(string, int)>)
      reads this
      ensures |board| == Min(LEADERBOARD_SIZE, |Joined(users, scores)|)
      ensures forall k :: 0 <= k < |board| ==> board[k] == (Top(Joined(users, scores))[k].name, Top(Joined(users, scores))[k].highscore)
    {
      TopIsBest(Joined(users, scores));
      Pairs(Top(Joined(users, scores)))
    }
  }

  /**
   * Signing in after creating an account: the new name with the same
   * password finds the new row, and, the hash being one-to-one, any other
   * password finds none.
   */
  lemma LoginAfterCreate(users: seq<UserRow>, id: nat, name: string, password: string, other: string, hash: string -> string)
    requires !NameTaken(users, name)
    requires forall a, b :: hash(a) == hash(b) ==> a == b
    ensures FindLogin(users + [UserRow(id, name, hash(password))], name, hash(password)) == Some(|users|)
    ensures other != password ==> FindLogin(users + [UserRow(id, name, hash(password))], name, hash(other)) == None
  {
    var after := users + [UserRow(id, name, hash(password))];
    assert after[|users|] == UserRow(id, name, hash(password));
    if other != password {
      assert hash(other) != hash(password);
    }
  }
}
