/** The user database and its text form as values, and the round trip between them. */
module PasswdSpec {
  import opened PasswdText

  const MAX_USERS := 64
  const SIZES: seq<nat> := [32, 16, 16, 32, 64, 64, 20, 20]

  datatype User = User(uid: nat, gid: nat, flags: nat, hash: nat, salt: nat, name: string, home: string, shell: string)

  /** Where usr_add gets a salt, and the hash of the empty password under it. */
  datatype Entropy = Entropy(salt: nat -> nat, hash: nat -> nat)

  // ---- Printing --------------------------------------------------------------------------------------------

  function FlagName(flags: nat): string {
    if flags % 2 == 1 then "wheel"
    else if flags / 2 % 2 == 1 then "nologin"
    else if flags / 4 % 2 == 1 then "locked"
    else "-"
  }

  function Fields(u: User): seq<string> {
    [u.name, Dec(u.uid), Dec(u.gid), FlagName(u.flags), u.home, u.shell, Hex(u.salt, 16), Hex(u.hash, 16)]
  }

  function Line(u: User): string { Spaced(Fields(u)) + "\n" }

  function Lines(us: seq<User>): string {
    if us == [] then "" else Line(us[0]) + Lines(us[1..])
  }

  /** What usr_write_passwd writes when everything fits. */
  function Encode(us: seq<User>): string { "#ASDPW1\n" + Lines(us) }

  // ---- Loading ---------------------------------------------------------------------------------------------

  predicate HasUid(db: seq<User>, uid: nat) { exists i :: 0 <= i < |db| && db[i].uid == uid }
  predicate HasName(db: seq<User>, name: string) { exists i :: 0 <= i < |db| && db[i].name == name }

  /** The first user with this uid; |db| when there is none. */
  function IndexOf(db: seq<User>, uid: nat): (k: nat)
    ensures k <= |db| && (k < |db| ==> db[k].uid == uid) && forall i :: 0 <= i < k ==> db[i].uid != uid
  {
    if db == [] then 0 else if db[0].uid == uid then 0 else 1 + IndexOf(db[1..], uid)
  }

  /** usr_add with the empty password. */
  function Add(db: seq<User>, u: User): seq<User> {
    if |db| >= MAX_USERS || HasUid(db, u.uid) || HasName(db, u.name) || u.name == "" then db else db + [Clipped(u)]
  }

  /** The name, home and shell as far as the record has room for them. */
  function Clipped(u: User): User { u.(name := Clip(u.name, 31), home := Clip(u.home, 63), shell := Clip(u.shell, 63)) }

  function Clip(s: string, n: nat): string { if |s| <= n then s else s[..n] }

  function FlagValue(t: string): nat {
    if t == "wheel" then 1 else if t == "nologin" then 2 else if t == "locked" then 4 else 0
  }

  /** The user a line describes, with the salt and hash usr_add gives it. */
  function Described(toks: seq<string>, salt: nat, hash: nat): User
    requires |toks| == 8
  {
    User(Atou(toks[1], 0) % 0x1_0000, Atou(toks[2], 0) % 0x1_0000, FlagValue(toks[3]), hash, salt, toks[0],
         if toks[4] == "" then "/" else toks[4], if toks[5] == "" then "/bin/asdsh" else toks[5])
  }

  function Restored(u: User, salt: string, hash: string): User {
    u.(salt := if IsHex64(salt) then ParseHex(salt, 16, 0) else u.salt,
       hash := if IsHex64(hash) then ParseHex(hash, 16, 0) else u.hash)
  }

  /** One line with name, uid and gid present. */
  function LoadLine(db: seq<User>, toks: seq<string>, salt: nat, hash: nat): seq<User>
    requires |toks| == 8
  {
    var u := Described(toks, salt, hash);
    var db' := if HasUid(db, u.uid) || HasName(db, u.name) then db else Add(db, u);
    var k := IndexOf(db', u.uid);
    if k < |db'| then db'[k := Restored(db'[k], toks[6], toks[7])] else db'
  }

  lemma {:induction false} ToksLength(s: string, sizes: seq<nat>)
    ensures |ReadToks(s, sizes)| == |sizes| && |AfterToks(s, sizes)| <= |s|
    decreases sizes
  {
    SkipLength(s);
    if sizes != [] {
      var n := if sizes[0] > 0 then sizes[0] - 1 else 0;
      DropLength(SkipWs(s), n);
      ToksLength(DropTok(SkipWs(s), n), sizes[1..]);
    }
  }

  lemma {:induction false} SkipLength(s: string)
    ensures |SkipWs(s)| <= |s| && (SkipWs(s) == "" || !IsBlank(SkipWs(s)[0]))
  {
    if s != "" && IsBlank(s[0]) {
      SkipLength(s[1..]);
    }
  }

  lemma {:induction false} DropLength(s: string, n: nat)
    ensures |DropTok(s, n)| <= |s|
    ensures s != "" && !IsSpace(s[0]) && n > 0 ==> |DropTok(s, n)| < |s|
    decreases n
  {
    if s != "" && !IsSpace(s[0]) && n > 0 {
      DropLength(s[1..], n - 1);
    }
  }

  lemma {:induction false} NextLength(s: string)
    ensures |NextLine(s)| <= |s| && (s != "" ==> |NextLine(s)| < |s|)
  {
    if s != "" && s[0] != '\n' {
      NextLength(s[1..]);
    }
  }

  /** The line at the parser's pointer holds no user. */
  predicate NoUser(s: string) { SkipWs(s) == "" || SkipWs(s)[0] == '#' || SkipWs(s)[0] == '\n' }

  /** Where the parser goes after the line at its pointer. */
  function Onward(s: string): (r: string)
    requires s != ""
    ensures |r| < |s|
  {
    SkipLength(s);
    var p := SkipWs(s);
    if NoUser(s) then
      NextLength(p);
      NextLine(p)
    else
      ToksLength(p, SIZES);
      ShorterAfter(p);
      NextLength(AfterToks(p, SIZES));
      NextLine(AfterToks(p, SIZES))
  }

  lemma ShorterAfter(p: string)
    requires p != "" && !IsSpace(p[0])
    ensures |AfterToks(p, SIZES)| < |p|
  {
    SkipNone(p);
    DropLength(p, 31);
    ToksLength(DropTok(p, 31), SIZES[1..]);
    assert SIZES[0] == 32;
  }

  /** usr_load_passwd from this point of the text on. */
  function Load(db: seq<User>, s: string, loaded: nat, e: Entropy): seq<User>
    decreases |s|
  {
    if s == "" || loaded >= MAX_USERS then db
    else if NoUser(s) then Load(db, Onward(s), loaded, e)
    else
      var toks := ReadToks(SkipWs(s), SIZES);
      ToksLength(SkipWs(s), SIZES);
      if toks[0] == "" || toks[1] == "" || toks[2] == "" then Load(db, Onward(s), loaded, e)
      else Load(LoadLine(db, toks, e.salt(loaded), e.hash(loaded)), Onward(s), loaded + 1, e)
  }

  /** How many lines describe a user, up to the size of the table; `loaded` of them are done. */
  function LoadCount(s: string, loaded: nat): nat
    decreases |s|
  {
    if s == "" || loaded >= MAX_USERS then loaded
    else if NoUser(s) then LoadCount(Onward(s), loaded)
    else
      var toks := ReadToks(SkipWs(s), SIZES);
      ToksLength(SkipWs(s), SIZES);
      LoadCount(Onward(s), if toks[0] == "" || toks[1] == "" || toks[2] == "" then loaded else loaded + 1)
  }

  // ---- The round trip --------------------------------------------------------------------------------------

  predicate GoodUser(u: User) {
    && u.uid < 0x1_0000 && u.gid < 0x1_0000 && u.hash < WORD && u.salt < WORD
    && (u.flags == 0 || u.flags == 1 || u.flags == 2 || u.flags == 4)
    && Word(u.name, 32) && u.name[0] != '#' && Word(u.home, 64) && Word(u.shell, 64)
  }

  lemma FieldsWords(u: User)
    requires GoodUser(u)
    ensures Words(Fields(u), SIZES)
  {
    assert Pow10(5) == 100000;
    DecShort(u.uid, 5);
    DecShort(u.gid, 5);
  }

  /** The parser reads a printed line as its fields and goes on behind it. */
  lemma LineParsed(u: User, rest: string)
    requires GoodUser(u)
    ensures var s := Line(u) + rest;
      s != "" && SkipWs(s) == s && !NoUser(s) && ReadToks(s, SIZES) == Fields(u) && Onward(s) == rest
  {
    var s, text := Line(u) + rest, Spaced(Fields(u));
    FieldsWords(u);
    assert Fields(u)[0] == u.name;
    assert text == u.name + " " + Spaced(Fields(u)[1..]);
    assert s[0] == u.name[0] && !IsSpace(u.name[0]);
    SkipNone(s);
    assert "" + text + ("\n" + rest) == s;
    LineRead(Fields(u), SIZES, "\n" + rest, "");
    assert ("\n" + rest)[1..] == rest;
  }

  lemma FlagRead(flags: nat)
    requires flags == 0 || flags == 1 || flags == 2 || flags == 4
    ensures FlagValue(FlagName(flags)) == flags
  {
  }

  /** A printed line describes its user, up to salt and hash, which are restored from it. */
  lemma LineDescribes(u: User, salt: nat, hash: nat)
    requires GoodUser(u)
    ensures Described(Fields(u), salt, hash) == u.(salt := salt, hash := hash)
  {
    AtouDec(u.uid);
    AtouDec(u.gid);
    FlagRead(u.flags);
  }

  lemma LineRestores(u: User, v: User)
    requires GoodUser(u)
    ensures Restored(v, Fields(u)[6], Fields(u)[7]) == v.(salt := u.salt, hash := u.hash)
  {
    Hex64Read(u.salt);
    Hex64Read(u.hash);
  }

  /** usr_init. */
  const BUILTIN_ROOT := User(0, 0, 0, 0, 0, "root", "/root", "/bin/asdsh")

  /** A database as the kernel builds it: root first, uids and names distinct. */
  predicate GoodDb(us: seq<User>) {
    && 0 < |us| <= MAX_USERS && us[0].uid == 0 && us[0].name == "root"
    && (forall i :: 0 <= i < |us| ==> GoodUser(us[i]))
    && (forall i, j :: 0 <= i < j < |us| ==> us[i].uid != us[j].uid && us[i].name != us[j].name)
  }

  /** The fresh database after the first k lines. */
  function After(us: seq<User>, k: nat): seq<User>
    requires 0 < |us| && k <= |us|
  {
    if k == 0 then [BUILTIN_ROOT] else [BUILTIN_ROOT.(salt := us[0].salt, hash := us[0].hash)] + us[1..k]
  }

  lemma LoadRoot(us: seq<User>, salt: nat, hash: nat)
    requires GoodDb(us)
    ensures LoadLine([BUILTIN_ROOT], Fields(us[0]), salt, hash) == After(us, 1)
  {
    LineDescribes(us[0], salt, hash);
    LineRestores(us[0], BUILTIN_ROOT);
    var db := [BUILTIN_ROOT];
    assert db[0].uid == 0 && HasUid(db, 0);
    assert IndexOf(db, 0) == 0;
  }

  lemma LoadNext(us: seq<User>, k: nat, salt: nat, hash: nat)
    requires GoodDb(us) && 0 < k < |us|
    ensures LoadLine(After(us, k), Fields(us[k]), salt, hash) == After(us, k + 1)
  {
    var db, u := After(us, k), us[k];
    LineDescribes(u, salt, hash);
    LineRestores(u, u.(salt := salt, hash := hash));
    forall i | 0 <= i < |db|
      ensures db[i].uid != u.uid && db[i].name != u.name
    {
      assert i > 0 ==> db[i] == us[i];
    }
    var db' := db + [u.(salt := salt, hash := hash)];
    assert Add(db, u.(salt := salt, hash := hash)) == db';
    IndexOfLast(db', u.uid);
    assert db'[|db| := u] == db + [u];
    AfterGrows(us, k);
  }

  lemma AfterGrows(us: seq<User>, k: nat)
    requires 0 < k < |us|
    ensures After(us, k) + [us[k]] == After(us, k + 1)
  {
    assert us[1..k] + [us[k]] == us[1..k + 1];
  }

  lemma LoadsNext(us: seq<User>, k: nat, salt: nat, hash: nat)
    requires GoodDb(us) && k < |us|
    ensures LoadLine(After(us, k), Fields(us[k]), salt, hash) == After(us, k + 1)
  {
    if k == 0 {
      LoadRoot(us, salt, hash);
    } else {
      LoadNext(us, k, salt, hash);
    }
  }

  lemma LinesStep(us: seq<User>, k: nat)
    requires k < |us|
    ensures Lines(us[k..]) == Line(us[k]) + Lines(us[k + 1..])
  {
    assert us[k..][0] == us[k] && us[k..][1..] == us[k + 1..];
  }

  lemma {:induction false} IndexOfLast(db: seq<User>, uid: nat)
    requires |db| > 0 && db[|db| - 1].uid == uid && forall i :: 0 <= i < |db| - 1 ==> db[i].uid != uid
    ensures IndexOf(db, uid) == |db| - 1
  {
  }

  lemma LoadStep(db: seq<User>, u: User, rest: string, k: nat, e: Entropy)
    requires GoodUser(u) && k < MAX_USERS
    ensures Load(db, Line(u) + rest, k, e) == Load(LoadLine(db, Fields(u), e.salt(k), e.hash(k)), rest, k + 1, e)
    ensures LoadCount(Line(u) + rest, k) == LoadCount(rest, k + 1)
  {
    LineParsed(u, rest);
    FieldsWords(u);
    assert Word(Fields(u)[0], SIZES[0]) && Word(Fields(u)[1], SIZES[1]) && Word(Fields(u)[2], SIZES[2]);
  }

  lemma {:induction false} LoadLines(us: seq<User>, k: nat, e: Entropy)
    requires GoodDb(us) && k <= |us|
    ensures Load(After(us, k), Lines(us[k..]), k, e) == After(us, |us|) && LoadCount(Lines(us[k..]), k) == |us|
    decreases |us| - k
  {
    if k < |us| {
      LinesStep(us, k);
      LoadStep(After(us, k), us[k], Lines(us[k + 1..]), k, e);
      LoadsNext(us, k, e.salt(k), e.hash(k));
      LoadLines(us, k + 1, e);
    }
  }

  lemma HeaderSkipped(db: seq<User>, rest: string, e: Entropy)
    ensures Load(db, "#ASDPW1\n" + rest, 0, e) == Load(db, rest, 0, e)
    ensures LoadCount("#ASDPW1\n" + rest, 0) == LoadCount(rest, 0)
  {
    var s := "#ASDPW1\n" + rest;
    assert s == "#ASDPW1" + "\n" + rest;
    SkipNone(s);
    NextLineSkips("#ASDPW1", rest);
  }

  /** Writing a database and loading the text into a fresh one restores every user but root exactly,
      and root's salt and hash. */
  lemma RoundTrip(us: seq<User>, e: Entropy)
    requires GoodDb(us)
    ensures Load([BUILTIN_ROOT], Encode(us), 0, e) == [BUILTIN_ROOT.(salt := us[0].salt, hash := us[0].hash)] + us[1..]
    ensures LoadCount(Encode(us), 0) == |us|
  {
    HeaderSkipped([BUILTIN_ROOT], Lines(us), e);
    assert us[0..] == us && us[1..|us|] == us[1..];
    LoadLines(us, 0, e);
  }
}
