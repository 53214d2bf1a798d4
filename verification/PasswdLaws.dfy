/** Loading arbitrary text: the tokens that are read, the users that can come of them, and why what
    was loaded once can always be written and loaded again. */
module PasswdLaws {
  import opened PasswdText
  import opened PasswdSpec

  // ---- Tokens ------------------------------------------------------------------------------------------

  const SPACES := {' ', '\t', '\n', '\r'}

  /** is_space. */
  lemma SpacesAre(c: char)
    ensures IsSpace(c) <==> c in SPACES
    ensures IsBlank(c) <==> c in SPACES - {'\n'}
  {
  }

  /** A token is the text up to the first space character or the end of the buffer. */
  lemma {:induction false} TokIsPrefix(s: string, n: nat)
    ensures var t, rest := TakeTok(s, n), DropTok(s, n);
      s == t + rest && |t| <= n && NoSpace(t) && (|t| == n || Ends(rest))
    decreases n
  {
    if s != "" && !IsSpace(s[0]) && n > 0 {
      TokIsPrefix(s[1..], n - 1);
      assert s == [s[0]] + s[1..];
    }
  }

  /** Spaces, tabs and carriage returns in front of a token do not matter. */
  lemma {:induction false} BlanksSkipped(blanks: string, s: string)
    requires forall i :: 0 <= i < |blanks| ==> blanks[i] in SPACES - {'\n'}
    ensures SkipWs(blanks + s) == SkipWs(s)
    decreases blanks
  {
    if blanks == "" {
      assert blanks + s == s;
    } else {
      SpacesAre(blanks[0]);
      assert (blanks + s)[1..] == blanks[1..] + s;
      BlanksSkipped(blanks[1..], s);
    }
  }

  lemma {:induction false} TokensRead(s: string, sizes: seq<nat>)
    requires forall i :: 0 <= i < |sizes| ==> sizes[i] > 0
    ensures |ReadToks(s, sizes)| == |sizes|
    ensures forall i :: 0 <= i < |sizes| ==> NoSpace(ReadToks(s, sizes)[i]) && |ReadToks(s, sizes)[i]| < sizes[i]
    decreases sizes
  {
    if sizes != [] {
      var n := sizes[0] - 1;
      TokIsPrefix(SkipWs(s), n);
      TokensRead(DropTok(SkipWs(s), n), sizes[1..]);
    }
  }

  // ---- Users -------------------------------------------------------------------------------------------

  /** Salts and hashes are 64-bit words. */
  ghost predicate Words64(e: Entropy) { forall k: nat :: e.salt(k) < WORD && e.hash(k) < WORD }

  lemma {:induction false} HexBounded(s: string, n: nat, acc: nat)
    requires acc < WORD
    ensures ParseHex(s, n, acc) < WORD
    decreases n
  {
    if n > 0 && s != "" && IsHex(s[0]) {
      HexBounded(s[1..], n - 1, (acc * 16 + Nibble(s[0])) % WORD);
    }
  }

  /** What the parser may find on a line that describes a user. */
  predicate UserToks(toks: seq<string>) {
    && |toks| == 8 && toks[0] != "" && toks[0][0] != '#'
    && forall i :: 0 <= i < 8 ==> NoSpace(toks[i]) && |toks[i]| < SIZES[i]
  }

  /** Whatever the tokens, they describe a user that could have been printed. */
  lemma DescribedGood(toks: seq<string>, salt: nat, hash: nat)
    requires UserToks(toks) && salt < WORD && hash < WORD
    ensures GoodUser(Described(toks, salt, hash)) && Clipped(Described(toks, salt, hash)) == Described(toks, salt, hash)
  {
    assert NoSpace(toks[0]) && |toks[0]| < SIZES[0];
    assert NoSpace(toks[4]) && |toks[4]| < SIZES[4];
    assert NoSpace(toks[5]) && |toks[5]| < SIZES[5];
  }

  lemma RestoredGood(u: User, salt: string, hash: string)
    requires GoodUser(u)
    ensures GoodUser(Restored(u, salt, hash))
  {
    HexBounded(salt, 16, 0);
    HexBounded(hash, 16, 0);
  }

  /** r has all users of db, in place, with at most salt and hash different. */
  predicate Grows(db: seq<User>, r: seq<User>) {
    |db| <= |r| && forall i :: 0 <= i < |db| ==> r[i] == db[i].(salt := r[i].salt, hash := r[i].hash)
  }

  lemma GrowsThen(a: seq<User>, b: seq<User>, c: seq<User>)
    requires Grows(a, b) && Grows(b, c)
    ensures Grows(a, c)
  {
    forall i | 0 <= i < |a|
      ensures c[i] == a[i].(salt := c[i].salt, hash := c[i].hash)
    {
      assert b[i] == a[i].(salt := b[i].salt, hash := b[i].hash);
    }
  }

  lemma AddGood(db: seq<User>, u: User)
    requires GoodDb(db) && GoodUser(u) && Clipped(u) == u
    ensures GoodDb(Add(db, u)) && Grows(db, Add(db, u))
  {
    var r := Add(db, u);
    forall i | 0 <= i < |db| && r != db
      ensures db[i].uid != u.uid && db[i].name != u.name
    {
      assert !HasUid(db, u.uid) && !HasName(db, u.name);
    }
  }

  /** Restoring salt and hash of one user changes nothing else. */
  lemma RestoreGood(db: seq<User>, k: nat, salt: string, hash: string)
    requires GoodDb(db) && k < |db|
    ensures GoodDb(db[k := Restored(db[k], salt, hash)]) && Grows(db, db[k := Restored(db[k], salt, hash)])
  {
    RestoredGood(db[k], salt, hash);
  }

  /** One line adds at most one user, and else changes at most the salt and hash of the one it names. */
  lemma LoadLineGood(db: seq<User>, toks: seq<string>, salt: nat, hash: nat)
    requires GoodDb(db) && UserToks(toks) && salt < WORD && hash < WORD
    ensures GoodDb(LoadLine(db, toks, salt, hash)) && Grows(db, LoadLine(db, toks, salt, hash))
    ensures |LoadLine(db, toks, salt, hash)| <= |db| + 1
  {
    var u := Described(toks, salt, hash);
    DescribedGood(toks, salt, hash);
    AddGood(db, u);
    var mid := if HasUid(db, u.uid) || HasName(db, u.name) then db else Add(db, u);
    var k := IndexOf(mid, u.uid);
    if k < |mid| {
      RestoreGood(mid, k, toks[6], toks[7]);
      GrowsThen(db, mid, mid[k := Restored(mid[k], toks[6], toks[7])]);
    }
  }

  /** It touches no user but the one of its uid. */
  lemma LoadLineElsewhere(db: seq<User>, toks: seq<string>, salt: nat, hash: nat, i: nat)
    requires |toks| == 8 && i < |db| && db[i].uid != Described(toks, salt, hash).uid
    ensures i < |LoadLine(db, toks, salt, hash)| && LoadLine(db, toks, salt, hash)[i] == db[i]
  {
  }

  lemma UserLine(s: string)
    requires !NoUser(s) && ReadToks(SkipWs(s), SIZES)[0] != ""
    ensures UserToks(ReadToks(SkipWs(s), SIZES))
  {
    var p := SkipWs(s);
    SkipLength(s);
    SkipNone(p);
    TokensRead(p, SIZES);
    assert ReadToks(p, SIZES)[0] == TakeTok(SkipWs(p), 31);
    TokIsPrefix(p, 31);
  }

  /** The line at the parser's pointer lacks a name, a uid or a gid, or holds no user at all. */
  predicate Skips(s: string) {
    ToksLength(SkipWs(s), SIZES);
    var toks := ReadToks(SkipWs(s), SIZES);
    NoUser(s) || toks[0] == "" || toks[1] == "" || toks[2] == ""
  }

  lemma LoadSkips(db: seq<User>, s: string, loaded: nat, e: Entropy)
    requires s != "" && loaded < MAX_USERS && Skips(s)
    ensures Load(db, s, loaded, e) == Load(db, Onward(s), loaded, e)
  {
  }

  predicate Checked(k: nat) { true }

  /** r is in order and grew from db; stated behind a trigger because loading only hands it on. */
  ghost predicate Follows(db: seq<User>, r: seq<User>) {
    forall k: nat {:trigger Checked(k)} :: Checked(k) ==> GoodDb(r) && Grows(db, r)
  }

  lemma FollowsThen(a: seq<User>, b: seq<User>, c: seq<User>)
    requires Follows(a, b) && Follows(b, c)
    ensures Follows(a, c)
  {
    assert Checked(0);
    GrowsThen(a, b, c);
  }

  /** One line of the text: the database after it, which is in order like the one before. */
  lemma LoadTakes(a: seq<User>, db: seq<User>, s: string, loaded: nat, e: Entropy) returns (next: seq<User>)
    requires s != "" && loaded < MAX_USERS && !Skips(s) && Follows(a, db) && Words64(e)
    ensures Load(db, s, loaded, e) == Load(next, Onward(s), loaded + 1, e) && Follows(a, next)
  {
    ToksLength(SkipWs(s), SIZES);
    var toks := ReadToks(SkipWs(s), SIZES);
    next := LoadLine(db, toks, e.salt(loaded), e.hash(loaded));
    LineFollows(a, db, s, toks, e.salt(loaded), e.hash(loaded));
  }

  lemma LineFollows(a: seq<User>, db: seq<User>, s: string, toks: seq<string>, salt: nat, hash: nat)
    requires !Skips(s) && toks == ReadToks(SkipWs(s), SIZES) && |toks| == 8 && Follows(a, db)
    requires salt < WORD && hash < WORD
    ensures Follows(a, LoadLine(db, toks, salt, hash))
  {
    assert Checked(0);
    UserLine(s);
    LoadLineGood(db, toks, salt, hash);
    FollowsThen(a, db, LoadLine(db, toks, salt, hash));
  }

  /** Loading the rest of the text ends in `goal`. */
  ghost predicate Leads(db: seq<User>, s: string, loaded: nat, e: Entropy, goal: seq<User>) {
    forall k: nat {:trigger Checked(k)} :: Checked(k) ==> Load(db, s, loaded, e) == goal
  }

  lemma OneLine(a: seq<User>, db: seq<User>, s: string, loaded: nat, e: Entropy, goal: seq<User>)
    returns (next: seq<User>, rest: string, loaded': nat)
    requires s != "" && loaded < MAX_USERS && Follows(a, db) && Words64(e) && Leads(db, s, loaded, e, goal)
    ensures Follows(a, next) && |rest| < |s| && Leads(next, rest, loaded', e, goal)
  {
    rest := Onward(s);
    if Skips(s) {
      LoadSkips(db, s, loaded, e);
      next, loaded' := db, loaded;
    } else {
      next := LoadTakes(a, db, s, loaded, e);
      loaded' := loaded + 1;
    }
    assert Checked(0);
  }

  lemma NoMoreLines(db: seq<User>, s: string, loaded: nat, e: Entropy, goal: seq<User>)
    requires (s == "" || loaded >= MAX_USERS) && Leads(db, s, loaded, e, goal)
    ensures goal == db
  {
    assert Checked(0);
  }

  lemma {:induction false} LoadFollows(a: seq<User>, db: seq<User>, s: string, loaded: nat, e: Entropy, goal: seq<User>)
    requires Follows(a, db) && Words64(e) && Leads(db, s, loaded, e, goal)
    ensures Follows(a, goal)
    decreases |s|
  {
    if s == "" || loaded >= MAX_USERS {
      NoMoreLines(db, s, loaded, e, goal);
    } else {
      var next, rest, loaded' := OneLine(a, db, s, loaded, e, goal);
      LoadFollows(a, next, rest, loaded', e, goal);
    }
  }

  /** No text whatever brings a database out of order: loading keeps every user, adds only users with
      new names and numbers, and never more than the table holds. */
  lemma LoadGood(db: seq<User>, s: string, loaded: nat, e: Entropy)
    requires GoodDb(db) && Words64(e)
    ensures GoodDb(Load(db, s, loaded, e)) && Grows(db, Load(db, s, loaded, e))
  {
    LoadFollows(db, db, s, loaded, e, Load(db, s, loaded, e));
    assert Checked(0);
  }

  lemma BuiltinGood()
    ensures GoodDb([BUILTIN_ROOT])
  {
  }

  /** Whatever was loaded, writing it and loading that gives exactly the same users. */
  lemma LoadedIsStable(s: string, e: Entropy, e': Entropy)
    requires Words64(e)
    ensures var us := Load([BUILTIN_ROOT], s, 0, e); Load([BUILTIN_ROOT], Encode(us), 0, e') == us
  {
    var us := Load([BUILTIN_ROOT], s, 0, e);
    BuiltinGood();
    LoadGood([BUILTIN_ROOT], s, 0, e);
    RoundTrip(us, e');
    assert us[0] == BUILTIN_ROOT.(salt := us[0].salt, hash := us[0].hash);
    assert [us[0]] + us[1..] == us;
  }
}
