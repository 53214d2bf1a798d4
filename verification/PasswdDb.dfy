/** The user table and its two text routines: the printer fills a buffer by index, the parser moves
    a pointer through the text. */
module PasswdDb {
  import opened PasswdText
  import opened PasswdSpec
  import opened PasswdBuffer

  const NUL := '\0'

  // ---- Numbers ---------------------------------------------------------------------------------------------

  /** The decimal loop of usr_write_passwd, filling a scratch buffer from its end. */
  method Decimal(value: nat) returns (s: string)
    ensures s == Dec(value)
  {
    s := if value == 0 then "0" else "";
    var v := value;
    assert v > 0 ==> Dec(v) + s == Dec(value);
    while v > 0
      invariant v > 0 ==> Dec(v) + s == Dec(value)
      invariant v == 0 ==> s == Dec(value)
    {
      ghost var before := s;
      s := [Digit(v % 10)] + s;
      assert v >= 10 ==> Dec(v / 10) + [Digit(v % 10)] + before == Dec(v / 10) + s;
      v := v / 10;
    }
  }

  /** fmt_hex64. */
  method FormatHex(value: nat) returns (s: string)
    ensures s == Hex(value, 16)
  {
    s := "";
    var v := value;
    assert Hex(v, 16) + s == Hex(value, 16);
    for i := 0 to 16
      invariant Hex(v, 16 - i) + s == Hex(value, 16)
    {
      ghost var before, n := s, 16 - i;
      s := [HexDigit(v % 16)] + s;
      assert Hex(v, n) == Hex(v / 16, n - 1) + [HexDigit(v % 16)];
      assert Hex(v / 16, n - 1) + [HexDigit(v % 16)] + before == Hex(v / 16, n - 1) + s;
      v := v / 16;
    }
  }

  // ---- Printing --------------------------------------------------------------------------------------------

  /** Copy s to buf from pos on, as far as positions below limit go. */
  method Put(buf: array<char>, pos: nat, s: string, limit: nat) returns (pos': nat)
    requires pos <= buf.Length && limit <= buf.Length
    modifies buf
    ensures pos' <= buf.Length && buf[..pos'] == Cut(old(buf[..pos]), s, limit)
    ensures forall i :: pos' <= i < buf.Length ==> buf[i] == old(buf[i])
  {
    var j := 0;
    pos' := pos;
    while j < |s| && pos' < limit
      invariant j <= |s| && pos' == pos + j <= buf.Length && (j > 0 ==> pos' <= limit)
      invariant buf[..pos'] == old(buf[..pos]) + s[..j]
      invariant forall i :: pos' <= i < buf.Length ==> buf[i] == old(buf[i])
    {
      buf[pos'] := s[j];
      pos', j := pos' + 1, j + 1;
    }
    assert s[..|s|] == s;
  }

  /** One field and a space, which nothing holds back. */
  method PutField(buf: array<char>, start: nat, field: string, limit: nat) returns (pos: nat)
    requires start <= buf.Length && limit <= buf.Length && |Cut(buf[..start], field, limit)| < buf.Length
    modifies buf
    ensures pos <= buf.Length && buf[..pos] == Cut(old(buf[..start]), field, limit) + " "
    ensures forall i :: pos <= i < buf.Length ==> buf[i] == old(buf[i])
  {
    pos := Put(buf, start, field, limit);
    ghost var cut := buf[..pos];
    buf[pos] := ' ';
    pos := pos + 1;
    assert buf[..pos] == cut + " ";
  }

  /** Fields, each with its space. */
  method PutFields(buf: array<char>, start: nat, fields: seq<string>, limit: nat) returns (pos: nat)
    requires start <= buf.Length && limit <= buf.Length && |CutTrail(buf[..start], fields, limit)| <= buf.Length
    modifies buf
    ensures pos <= buf.Length && buf[..pos] == CutTrail(old(buf[..start]), fields, limit)
    ensures forall i :: pos <= i < buf.Length ==> buf[i] == old(buf[i])
  {
    pos := start;
    ghost var all := CutTrail(buf[..start], fields, limit);
    assert fields[0..] == fields;
    for i := 0 to |fields|
      invariant pos <= buf.Length && CutTrail(buf[..pos], fields[i..], limit) == all
      invariant forall k :: pos <= k < buf.Length ==> buf[k] == old(buf[k])
    {
      assert fields[i..][0] == fields[i] && fields[i..][1..] == fields[i + 1..];
      pos := PutField(buf, pos, fields[i], limit);
    }
    assert fields[|fields|..] == [];
  }

  method PutUser(buf: array<char>, start: nat, u: User, size: nat) returns (pos: nat)
    requires start <= buf.Length && 2 <= size <= buf.Length && |CutLine(buf[..start], u, size)| <= buf.Length
    modifies buf
    ensures pos <= buf.Length && buf[..pos] == CutLine(old(buf[..start]), u, size)
    ensures forall i :: pos <= i < buf.Length ==> buf[i] == old(buf[i])
  {
    var uid := Decimal(u.uid);
    var gid := Decimal(u.gid);
    var salt := FormatHex(u.salt);
    var hash := FormatHex(u.hash);
    var fields := [u.name, uid, gid, FlagName(u.flags), u.home, u.shell, salt];
    pos := PutFields(buf, start, fields, size - 2);
    pos := Put(buf, pos, hash, size - 2);
    ghost var cut := buf[..pos];
    if pos < size - 1 {
      buf[pos] := '\n';
      pos := pos + 1;
      assert buf[..pos] == cut + "\n";
    }
  }

  method PutUsers(buf: array<char>, start: nat, us: seq<User>, size: nat) returns (pos: nat)
    requires start <= buf.Length && 2 <= size <= buf.Length && |CutLines(buf[..start], us, size)| <= buf.Length
    modifies buf
    ensures pos <= buf.Length && buf[..pos] == CutLines(old(buf[..start]), us, size)
    ensures forall i :: pos <= i < buf.Length ==> buf[i] == old(buf[i])
  {
    pos := start;
    ghost var all := CutLines(buf[..start], us, size);
    assert us[0..] == us;
    for i := 0 to |us|
      invariant pos <= buf.Length && CutLines(buf[..pos], us[i..], size) == all
      invariant forall k :: pos <= k < buf.Length ==> buf[k] == old(buf[k])
    {
      assert us[i..][0] == us[i] && us[i..][1..] == us[i + 1..];
      pos := PutUser(buf, pos, us[i], size);
    }
    assert us[|us|..] == [];
  }

  class UserDb {
    var users: seq<User>

    /** usr_init. */
    constructor ()
      ensures users == [BUILTIN_ROOT]
    {
      users := [BUILTIN_ROOT];
    }

    /** usr_write_passwd; `buf` is the memory that starts with the buffer.  It is written up to the
        terminator and no further: inside the buffer as `InsideIff` says. */
    method WritePasswd(buf: array<char>, size: nat) returns (n: int)
      requires size <= buf.Length && (size >= 8 ==> |Written(users, size)| < buf.Length)
      modifies buf
      ensures size < 8 ==> n == -1 && buf[..] == old(buf[..])
      ensures size >= 8 ==> n == |Written(users, size)| && buf[..n] == Written(users, size) && buf[n] == NUL
      ensures size >= 8 ==> forall i :: n < i < buf.Length ==> buf[i] == old(buf[i])
      ensures size >= 8 && |Encode(users)| < size ==> n == |Encode(users)| && buf[..n] == Encode(users)
    {
      if size < 8 {
        return -1;
      }
      var pos := Put(buf, 0, "#ASDPW1\n", size - 1);
      pos := PutUsers(buf, pos, users, size);
      buf[pos] := NUL;
      if |Encode(users)| < size {
        WrittenWhole(users, size);
      }
      return pos;
    }

    /** usr_find_by_uid. */
    method FindUid(uid: nat) returns (k: nat)
      ensures k == IndexOf(users, uid)
    {
      k := 0;
      while k < |users| && users[k].uid != uid
        invariant k <= |users| && forall i :: 0 <= i < k ==> users[i].uid != uid
      {
        k := k + 1;
      }
      IndexOfFirst(users, uid, k);
    }

    /** usr_find_by_name. */
    method FindName(name: string) returns (found: bool)
      ensures found == HasName(users, name)
    {
      for i := 0 to |users|
        invariant forall j :: 0 <= j < i ==> users[j].name != name
      {
        if users[i].name == name {
          return true;
        }
      }
      return false;
    }

    /** usr_add: -1 and no change, or 0 and one more user. */
    method AddUser(u: User) returns (rc: int)
      modifies this
      ensures users == Add(old(users), u)
      ensures rc == if users == old(users) then -1 else 0
    {
      if |users| >= MAX_USERS {
        return -1;
      }
      var k := FindUid(u.uid);
      var named := FindName(u.name);
      HasUidIff(users, u.uid);
      if k < |users| || named || u.name == "" {
        return -1;
      }
      users := users + [Clipped(u)];
      return 0;
    }

    /** The part of usr_load_passwd that handles one complete line. */
    method ApplyLine(toks: seq<string>, salt: nat, hash: nat)
      requires |toks| == 8
      modifies this
      ensures users == LoadLine(old(users), toks, salt, hash)
    {
      var u := Described(toks, salt, hash);
      var k := FindUid(u.uid);
      var named := FindName(u.name);
      HasUidIff(users, u.uid);
      if k == |users| && !named {
        var rc := AddUser(u);
      }
      k := FindUid(u.uid);
      if k < |users| {
        users := users[k := Restored(users[k], toks[6], toks[7])];
      }
    }

    /** usr_load_passwd on a NUL-terminated text of at most len characters. */
    method LoadPasswd(text: string, len: nat, e: Entropy) returns (loaded: int)
      requires |text| <= len
      modifies this
      ensures len == 0 ==> loaded == -1 && users == old(users)
      ensures len > 0 ==> users == Load(old(users), text, 0, e) && loaded == LoadCount(text, 0)
    {
      if len == 0 {
        return -1;
      }
      var p := 0;
      loaded := 0;
      assert text[0..] == text;
      while p < len && p < |text| && loaded < MAX_USERS
        invariant 0 <= loaded && p <= |text|
        invariant Load(users, text[p..], loaded, e) == Load(old(users), text, 0, e)
        invariant LoadCount(text[p..], loaded) == LoadCount(text, 0)
        decreases |text| - p
      {
        p, loaded := LoadOne(text, p, loaded, e);
      }
      assert p == |text| ==> text[p..] == "";
    }

    /** One line. */
    method LoadOne(text: string, p: nat, loaded: nat, e: Entropy) returns (q: nat, loaded': nat)
      requires p < |text| && loaded < MAX_USERS
      modifies this
      ensures p < q <= |text| && Load(users, text[q..], loaded', e) == Load(old(users), text[p..], loaded, e)
      ensures LoadCount(text[q..], loaded') == LoadCount(text[p..], loaded)
    {
      var toks;
      q, toks := ReadLine(text, p);
      LoadUnfolds(users, text[p..], toks, loaded, e);
      loaded' := loaded;
      if Complete(toks) {
        ApplyLine(toks, e.salt(loaded), e.hash(loaded));
        loaded' := loaded + 1;
      }
    }
  }

  lemma {:induction false} IndexOfFirst(db: seq<User>, uid: nat, k: nat)
    requires k <= |db| && (k < |db| ==> db[k].uid == uid) && forall i :: 0 <= i < k ==> db[i].uid != uid
    ensures IndexOf(db, uid) == k
  {
  }

  lemma HasUidIff(db: seq<User>, uid: nat)
    ensures HasUid(db, uid) <==> IndexOf(db, uid) < |db|
  {
  }

  /** Saving a database and loading the text into a fresh one. */
  method Reload(db: UserDb, size: nat, e: Entropy) returns (copy: UserDb, loaded: int)
    requires GoodDb(db.users) && 8 <= size && |Encode(db.users)| < size
    ensures fresh(copy)
    ensures copy.users == [BUILTIN_ROOT.(salt := db.users[0].salt, hash := db.users[0].hash)] + db.users[1..]
    ensures loaded == |db.users|
  {
    var buf := new char[size](_ => NUL);
    WrittenWhole(db.users, size);
    var n := db.WritePasswd(buf, size);
    copy := new UserDb();
    loaded := copy.LoadPasswd(buf[..n], n, e);
    RoundTrip(db.users, e);
  }

  // ---- Parsing ---------------------------------------------------------------------------------------------

  method SkipBlanks(text: string, p: nat) returns (q: nat)
    requires p <= |text|
    ensures p <= q <= |text| && text[q..] == SkipWs(text[p..])
  {
    q := p;
    while q < |text| && IsBlank(text[q])
      invariant p <= q <= |text| && SkipWs(text[q..]) == SkipWs(text[p..])
    {
      assert text[q..][1..] == text[q + 1..];
      q := q + 1;
    }
  }

  method ReadTok(text: string, p: nat, size: nat) returns (tok: string, q: nat)
    requires p <= |text| && size > 0
    ensures p <= q <= |text| && tok == TakeTok(SkipWs(text[p..]), size - 1)
    ensures text[q..] == DropTok(SkipWs(text[p..]), size - 1)
  {
    q := SkipBlanks(text, p);
    tok := "";
    ghost var s := text[q..];
    while q < |text| && !IsSpace(text[q]) && |tok| < size - 1
      invariant p <= q <= |text| && |tok| <= size - 1
      invariant tok + TakeTok(text[q..], size - 1 - |tok|) == TakeTok(s, size - 1)
      invariant DropTok(text[q..], size - 1 - |tok|) == DropTok(s, size - 1)
    {
      ghost var before, n := tok, size - 1 - |tok|;
      assert text[q..][1..] == text[q + 1..];
      tok := tok + [text[q]];
      assert before + ([text[q]] + TakeTok(text[q + 1..], n - 1)) == tok + TakeTok(text[q + 1..], n - 1);
      q := q + 1;
    }
    assert tok + "" == tok;
  }

  method SkipLine(text: string, p: nat) returns (q: nat)
    requires p <= |text|
    ensures p <= q <= |text| && text[q..] == NextLine(text[p..])
  {
    q := p;
    while q < |text| && text[q] != '\n'
      invariant p <= q <= |text| && NextLine(text[q..]) == NextLine(text[p..])
    {
      assert text[q..][1..] == text[q + 1..];
      q := q + 1;
    }
    if q < |text| {
      assert text[q..][1..] == text[q + 1..];
      q := q + 1;
    }
  }

  /** The read_tok calls of usr_load_passwd, one per buffer. */
  method ReadFields(text: string, p: nat, sizes: seq<nat>) returns (toks: seq<string>, q: nat)
    requires p <= |text| && forall i :: 0 <= i < |sizes| ==> sizes[i] > 0
    ensures p <= q <= |text| && toks == ReadToks(text[p..], sizes) && text[q..] == AfterToks(text[p..], sizes)
  {
    toks, q := [], p;
    assert sizes[0..] == sizes;
    for i := 0 to |sizes|
      invariant p <= q <= |text| && toks + ReadToks(text[q..], sizes[i..]) == ReadToks(text[p..], sizes)
      invariant AfterToks(text[q..], sizes[i..]) == AfterToks(text[p..], sizes)
    {
      ghost var before, s := toks, text[q..];
      assert sizes[i..][0] == sizes[i] > 0 && sizes[i..][1..] == sizes[i + 1..];
      var tok;
      tok, q := ReadTok(text, q, sizes[i]);
      toks := toks + [tok];
      ghost var rest := ReadToks(text[q..], sizes[i + 1..]);
      assert ReadToks(s, sizes[i..]) == [tok] + rest;
      assert before + ([tok] + rest) == toks + rest;
    }
    assert sizes[|sizes|..] == [];
    assert toks + [] == toks;
  }

  /** One round of the parser: no tokens for a comment or an empty line. */
  method ReadLine(text: string, p: nat) returns (q: nat, toks: seq<string>)
    requires p < |text|
    ensures p < q <= |text| && text[q..] == Onward(text[p..])
    ensures toks == if NoUser(text[p..]) then [] else ReadToks(SkipWs(text[p..]), SIZES)
  {
    q := SkipBlanks(text, p);
    toks := [];
    ghost var r := Onward(text[p..]);
    if q < |text| && text[q] != '#' && text[q] != '\n' {
      toks, q := ReadFields(text, q, SIZES);
    }
    q := SkipLine(text, q);
    assert text[q..] == r;
  }

  /** The tokens of a line that adds or updates a user. */
  predicate Complete(toks: seq<string>) { |toks| == 8 && toks[0] != "" && toks[1] != "" && toks[2] != "" }

  lemma LoadUnfolds(db: seq<User>, s: string, toks: seq<string>, loaded: nat, e: Entropy)
    requires s != "" && loaded < MAX_USERS && toks == if NoUser(s) then [] else ReadToks(SkipWs(s), SIZES)
    ensures Load(db, s, loaded, e) ==
      if Complete(toks) then Load(LoadLine(db, toks, e.salt(loaded), e.hash(loaded)), Onward(s), loaded + 1, e)
      else Load(db, Onward(s), loaded, e)
    ensures LoadCount(s, loaded) == LoadCount(Onward(s), if Complete(toks) then loaded + 1 else loaded)
  {
    ToksLength(SkipWs(s), SIZES);
  }
}
