/** What usr_write_passwd leaves in a buffer of any size: characters are cut at a limit, separators
    are not. */
module PasswdBuffer {
  import opened PasswdText
  import opened PasswdSpec

  /** s appended to out, as far as positions below limit go. */
  function Cut(out: string, s: string, limit: nat): (r: string)
    ensures |out| <= |r| && out <= r
  {
    if |out| + |s| <= limit then out + s
    else if |out| < limit then out + s[..limit - |out|]
    else out
  }

  /** Fields, each cut and then followed by a space. */
  function CutTrail(out: string, fields: seq<string>, limit: nat): (r: string)
    ensures |out| + |fields| <= |r|
    decreases fields
  {
    if fields == [] then out else CutTrail(Cut(out, fields[0], limit) + " ", fields[1..], limit)
  }

  /** All fields of a user but the last. */
  function Leading(u: User): seq<string> {
    [u.name, Dec(u.uid), Dec(u.gid), FlagName(u.flags), u.home, u.shell, Hex(u.salt, 16)]
  }

  function CutLine(out: string, u: User, size: nat): (r: string)
    requires size >= 2
    ensures |out| <= |r|
  {
    var x := Cut(CutTrail(out, Leading(u), size - 2), Hex(u.hash, 16), size - 2);
    if |x| < size - 1 then x + "\n" else x
  }

  function CutLines(out: string, us: seq<User>, size: nat): (r: string)
    requires size >= 2
    ensures |out| <= |r|
    decreases us
  {
    if us == [] then out else CutLines(CutLine(out, us[0], size), us[1..], size)
  }

  /** The text without its terminator. */
  function Written(us: seq<User>, size: nat): string
    requires size >= 2
  {
    CutLines(Cut("", "#ASDPW1\n", size - 1), us, size)
  }

  // ---- Lengths -----------------------------------------------------------------------------------------------

  /** p follows t, the length without cuts, up to the limit and does not fall behind it. */
  predicate Tracks(t: nat, p: nat, size: nat) { if t + 2 <= size then p == t else p + 2 >= size }

  function TrailSize(fields: seq<string>): nat {
    if fields == [] then 0 else |fields[0]| + 1 + TrailSize(fields[1..])
  }

  lemma {:induction false} TrailTracks(out: string, fields: seq<string>, t: nat, size: nat)
    requires size >= 2 && Tracks(t, |out|, size)
    ensures Tracks(t + TrailSize(fields), |CutTrail(out, fields, size - 2)|, size)
    decreases fields
  {
    if fields != [] {
      TrailTracks(Cut(out, fields[0], size - 2) + " ", fields[1..], t + |fields[0]| + 1, size);
    }
  }

  lemma {:induction false} SpacedSize(fields: seq<string>, last: string)
    ensures |Spaced(fields + [last])| == TrailSize(fields) + |last|
    decreases fields
  {
    if fields == [] {
      assert fields + [last] == [last];
    } else {
      assert (fields + [last])[1..] == fields[1..] + [last];
      SpacedSize(fields[1..], last);
    }
  }

  lemma LineSize(u: User)
    ensures |Line(u)| == TrailSize(Leading(u)) + 17
  {
    SpacedSize(Leading(u), Hex(u.hash, 16));
    assert Leading(u) + [Hex(u.hash, 16)] == Fields(u);
  }

  lemma LineTracks(out: string, u: User, t: nat, size: nat)
    requires size >= 2 && Tracks(t, |out|, size)
    ensures Tracks(t + |Line(u)|, |CutLine(out, u, size)|, size)
  {
    LineSize(u);
    TrailTracks(out, Leading(u), t, size);
  }

  /** The last line reaches past the buffer exactly when the text is more than 32 characters longer
      than the buffer: only its last two fields can be cut without that. */
  lemma LastLine(out: string, u: User, t: nat, size: nat)
    requires size >= 2 && Tracks(t, |out|, size)
    ensures |CutLine(out, u, size)| < size <==> t + |Line(u)| <= size + 32
  {
    var six, salt := Leading(u)[..6], Hex(u.salt, 16);
    assert Leading(u) == six + [salt];
    LineSize(u);
    TrailTracks(out, six, t, size);
    TrailSizeSnoc(six, salt);
    CutTrailSnoc(out, six, salt, size - 2);
    BeforeSalt(out, six, t, size);
  }

  lemma {:induction false} TrailSizeSnoc(fields: seq<string>, s: string)
    ensures TrailSize(fields + [s]) == TrailSize(fields) + |s| + 1
    decreases fields
  {
    if fields == [] {
      assert fields + [s] == [s] && [s][1..] == [];
    } else {
      assert (fields + [s])[1..] == fields[1..] + [s];
      TrailSizeSnoc(fields[1..], s);
    }
  }

  lemma {:induction false} CutTrailSnoc(out: string, fields: seq<string>, s: string, limit: nat)
    ensures CutTrail(out, fields + [s], limit) == Cut(CutTrail(out, fields, limit), s, limit) + " "
    decreases fields
  {
    if fields == [] {
      assert fields + [s] == [s] && [s][1..] == [];
    } else {
      assert (fields + [s])[1..] == fields[1..] + [s];
      CutTrailSnoc(Cut(out, fields[0], limit) + " ", fields[1..], s, limit);
    }
  }

  /** Behind a space, text that would have ended at the last position but one has gone past it. */
  lemma {:induction false} BeforeSalt(out: string, fields: seq<string>, t: nat, size: nat)
    requires size >= 2 && Tracks(t, |out|, size) && fields != []
    ensures t + TrailSize(fields) + 2 > size ==> |CutTrail(out, fields, size - 2)| + 1 >= size
    decreases fields
  {
    var next := Cut(out, fields[0], size - 2) + " ";
    if |fields| > 1 {
      BeforeSalt(next, fields[1..], t + |fields[0]| + 1, size);
    } else {
      assert fields[1..] == [] && TrailSize([]) == 0;
      assert CutTrail(out, fields, size - 2) == CutTrail(next, [], size - 2) == next;
    }
  }

  lemma {:induction false} LinesTrack(out: string, us: seq<User>, t: nat, size: nat)
    requires size >= 2 && Tracks(t, |out|, size) && us != []
    ensures |CutLines(out, us, size)| < size <==> t + |Lines(us)| <= size + 32
    decreases us
  {
    if |us| == 1 {
      assert us[1..] == [] && Lines(us) == Line(us[0]) + "";
      LastLine(out, us[0], t, size);
    } else {
      LineTracks(out, us[0], t, size);
      LinesTrack(CutLine(out, us[0], size), us[1..], t + |Line(us[0])|, size);
    }
  }

  /** Text and terminator stay inside the buffer exactly when the text is at most 32 characters
      longer than the buffer. */
  lemma InsideIff(us: seq<User>, size: nat)
    requires size >= 8 && us != []
    ensures |Written(us, size)| < size <==> |Encode(us)| <= size + 32
  {
    LinesTrack(Cut("", "#ASDPW1\n", size - 1), us, 8, size);
  }

  /** The smallest buffer that is accepted does not hold the line of any user. */
  lemma EightIsTooSmall(u: User)
    ensures |Written([u], 8)| >= 8
  {
    LineSize(u);
    assert Lines([u]) == Line(u) + "";
    assert Leading(u) == Leading(u)[..6] + [Hex(u.salt, 16)];
    TrailSizeSnoc(Leading(u)[..6], Hex(u.salt, 16));
    InsideIff([u], 8);
  }

  // ---- Text that fits ------------------------------------------------------------------------------------------

  lemma Joined(a: string, b: string, c: string)
    ensures a + b + c == a + (b + c)
  {
  }

  lemma FieldJoined(out: string, f: string, rest: string)
    ensures out + f + " " + rest == out + (f + " " + rest)
  {
    Joined(out, f, " ");
    Joined(out, f + " ", rest);
  }

  lemma {:induction false} TrailWhole(out: string, fields: seq<string>, last: string, limit: nat)
    requires |out| + TrailSize(fields) + |last| <= limit
    ensures Cut(CutTrail(out, fields, limit), last, limit) == out + Spaced(fields + [last])
    decreases fields
  {
    if fields == [] {
      assert fields + [last] == [last];
    } else {
      var f := fields[0];
      assert (fields + [last])[1..] == fields[1..] + [last];
      TrailWhole(out + f + " ", fields[1..], last, limit);
      FieldJoined(out, f, Spaced(fields[1..] + [last]));
    }
  }

  lemma LineWhole(out: string, u: User, size: nat)
    requires |out| + |Line(u)| < size
    ensures CutLine(out, u, size) == out + Line(u)
  {
    LineSize(u);
    TrailWhole(out, Leading(u), Hex(u.hash, 16), size - 2);
    assert Leading(u) + [Hex(u.hash, 16)] == Fields(u);
  }

  lemma {:induction false} LinesWhole(out: string, us: seq<User>, size: nat)
    requires size >= 2 && |out| + |Lines(us)| < size
    ensures CutLines(out, us, size) == out + Lines(us)
    decreases us
  {
    if us == [] {
      assert out + "" == out;
    } else {
      LineWhole(out, us[0], size);
      LinesWhole(out + Line(us[0]), us[1..], size);
      Joined(out, Line(us[0]), Lines(us[1..]));
    }
  }

  /** Where there is room for the text and its terminator, it is written whole. */
  lemma WrittenWhole(us: seq<User>, size: nat)
    requires |Encode(us)| < size
    ensures Written(us, size) == Encode(us)
  {
    assert Cut("", "#ASDPW1\n", size - 1) == "#ASDPW1\n";
    LinesWhole("#ASDPW1\n", us, size);
  }
}
