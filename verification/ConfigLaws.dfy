/** What a config file means, and what survives writing it and reading it back. */
module ConfigLaws {
  import opened Options
  import opened CText
  import opened ConfigFile

  /* The names of the variables are different */

  lemma NamesDiffer()
    ensures forall i, j | 0 <= i < j < |INT_VARS| :: INT_VARS[i] != INT_VARS[j]
    ensures forall i, j | 0 <= i < |INT_VARS| && 0 <= j < |FLOAT_VARS| :: INT_VARS[i] != FLOAT_VARS[j]
    ensures FLOAT_VARS[0] != FLOAT_VARS[1]
    ensures MOD_FILE !in INT_VARS && MOD_FILE !in FLOAT_VARS
  {
    var lengths := [14, 18, 19, 16, 4, 15, 8, 13, 17, 16];
    assert forall i | 0 <= i < |INT_VARS| :: |INT_VARS[i]| == lengths[i];
    assert INT_VARS[3][0] == 't' && INT_VARS[9][0] == 'd' && INT_VARS[6][0] == 'l' && MOD_FILE[0] == 'm';
    assert |FLOAT_VARS[0]| == 11 && |FLOAT_VARS[1]| == 12 && |MOD_FILE| == 8;
  }

  /** Names are words that do not look like comments. */
  predicate IsName(s: string) {
    s != "" && NoSpaces(s) && NUL !in s && s[0] != '#' && |s| <= 20
  }

  lemma NamesAreNames()
    ensures forall i | 0 <= i < |INT_VARS| :: IsName(INT_VARS[i])
    ensures forall i | 0 <= i < |FLOAT_VARS| :: IsName(FLOAT_VARS[i])
    ensures IsName(MOD_FILE)
  {
    hide IsName;
    FirstNames();
    LastNames();
    NameIs("decal_limit");
    NameIs("debris_limit");
    NameIs("mod_file");
  }

  lemma FirstNames()
    ensures forall i | 0 <= i < 5 :: IsName(INT_VARS[i])
  {
    hide IsName;
    NameIs("touch_x_margin");
    NameIs("io_cache_block_num");
    NameIs("io_cache_block_size");
    NameIs("trilinear_filter");
    NameIs("msaa");
  }

  lemma LastNames()
    ensures forall i | 5 <= i < 10 :: IsName(INT_VARS[i])
  {
    hide IsName;
    NameIs("disable_mipmaps");
    NameIs("language");
    NameIs("crouch_toggle");
    NameIs("character_shadows");
    NameIs("drop_highest_lod");
  }

  lemma NameIs(s: string)
    requires 0 < |s| <= 20 && forall i | 0 <= i < |s| :: s[i] == '_' || 'a' <= s[i] <= 'z'
    ensures IsName(s)
  {
  }

  /* The last assignment of a variable wins */

  /** The value that a line gives to a name, if it does. */
  function Gives(line: string, name: string): Option<string> {
    match Tokenize(CStr(line))
    case Some(Pair(n, value)) => if n == name then Some(value) else None
    case None => None
  }

  /** The last of the given values, or -1. */
  function LastSome(vs: seq<Option<string>>): (k: int)
    ensures -1 <= k < |vs|
    ensures k >= 0 ==> vs[k].Some?
    ensures forall i | k < i < |vs| :: vs[i] == None
  {
    if vs == [] then -1 else if vs[|vs| - 1].Some? then |vs| - 1 else LastSome(vs[..|vs| - 1])
  }

  /** What each line gives to a name. */
  function Given(ls: seq<string>, name: string): (vs: seq<Option<string>>)
    ensures |vs| == |ls| && forall i | 0 <= i < |ls| :: vs[i] == Gives(ls[i], name)
  {
    seq(|ls|, i requires 0 <= i < |ls| => Gives(ls[i], name))
  }

  /** The settings have the variables of CONFIG_VARS. */
  ghost predicate HasVars(c: Settings) {
    c.ints.Keys == (set n | n in INT_VARS) && c.floats.Keys == (set n | n in FLOAT_VARS)
  }

  /** One line, for one variable. */
  lemma ReadLineFor(c: Settings, line: string, ff: FloatFormat)
    requires HasVars(c)
    ensures var r := ReadLine(c, line, ff);
            && HasVars(r)
            && (forall name | name in INT_VARS ::
                  r.ints[name] == match Gives(line, name) case Some(value) => Atoi(value) case None => c.ints[name])
            && (forall name | name in FLOAT_VARS ::
                  r.floats[name] == match Gives(line, name) case Some(value) => ff.read(value)
                    case None => c.floats[name])
            && r.modFile == match Gives(line, MOD_FILE) case Some(value) => Truncate(value) case None => c.modFile
  {
    hide Tokenize, CStr, Atoi, Truncate;
    NamesDiffer();
  }

  /** What reading the lines makes of a variable that was x: f turns the last text that a line gives to
      its name into its value. */
  function Last<T>(ls: seq<string>, name: string, x: T, f: string -> T): T {
    var vs := Given(ls, name);
    var k := LastSome(vs);
    if k < 0 then x else f(vs[k].value)
  }

  lemma LastStep<T>(ls: seq<string>, name: string, x: T, f: string -> T)
    requires ls != []
    ensures Last(ls, name, x, f) ==
      match Gives(ls[|ls| - 1], name) case Some(value) => f(value) case None => Last(ls[..|ls| - 1], name, x, f)
  {
    hide Gives;
    assert Given(ls, name)[..|ls| - 1] == Given(ls[..|ls| - 1], name);
  }

  /** Reading lines: every variable ends with the value of the last line that names it, or as it was.
      Comments, blank lines and unknown names do nothing, nor does a word at the very end of the text. */
  lemma {:induction false} LastAssignmentWins(c: Settings, ls: seq<string>, ff: FloatFormat)
    requires HasVars(c)
    ensures var r := ReadLines(c, ls, ff);
            && HasVars(r)
            && (forall name | name in INT_VARS :: r.ints[name] == Last(ls, name, c.ints[name], Atoi))
            && (forall name | name in FLOAT_VARS :: r.floats[name] == Last(ls, name, c.floats[name], ff.read))
            && r.modFile == Last(ls, MOD_FILE, c.modFile, Truncate)
  {
    hide Gives, ReadLine, Atoi, Truncate, Last;
    if ls == [] {
      NothingGiven(ls, ff);
    } else {
      var rest, line := ls[..|ls| - 1], ls[|ls| - 1];
      LastAssignmentWins(c, rest, ff);
      ReadLineFor(ReadLines(c, rest, ff), line, ff);
      forall name | name in INT_VARS
        ensures Last(ls, name, c.ints[name], Atoi) ==
                match Gives(line, name) case Some(value) => Atoi(value)
                  case None => Last(rest, name, c.ints[name], Atoi)
      {
        LastStep(ls, name, c.ints[name], Atoi);
      }
      forall name | name in FLOAT_VARS
        ensures Last(ls, name, c.floats[name], ff.read) ==
                match Gives(line, name) case Some(value) => ff.read(value)
                  case None => Last(rest, name, c.floats[name], ff.read)
      {
        LastStep(ls, name, c.floats[name], ff.read);
      }
      LastStep(ls, MOD_FILE, c.modFile, Truncate);
    }
  }

  lemma NothingGiven(ls: seq<string>, ff: FloatFormat)
    requires ls == []
    ensures forall name, x: int :: Last(ls, name, x, Atoi) == x
    ensures forall name, x: real :: Last(ls, name, x, ff.read) == x
    ensures forall name, x: string :: Last(ls, name, x, Truncate) == x
  {
  }

  /* Printed lines are read back one by one */

  predicate IsPrintedLine(l: string) {
    0 < |l| <= LINE_MAX && l[|l| - 1] == NEWLINE && NEWLINE !in l[..|l| - 1]
  }

  lemma {:induction false} ChunkIs(s: string, n: nat, max: nat)
    requires 0 < n <= |s| && n <= max && s[n - 1] == NEWLINE && NEWLINE !in s[..n - 1]
    ensures ChunkLength(s, max) == n
  {
    if n > 1 {
      assert s[0] == s[..n - 1][0];
      assert s[1..][..n - 2] == s[..n - 1][1..];
      ChunkIs(s[1..], n - 1, max - 1);
    }
  }

  lemma LinesOfOne(l: string, rest: string)
    requires IsPrintedLine(l)
    ensures Lines(l + rest) == [l] + Lines(rest)
  {
    var s := l + rest;
    assert s[..|l| - 1] == l[..|l| - 1] && s[..|l|] == l && s[|l|..] == rest;
    ChunkIs(s, |l|, LINE_MAX);
  }

  lemma ListFront(l: string, ls: seq<string>)
    requires ls != []
    ensures ([l] + ls)[..|ls|] == [l] + ls[..|ls| - 1] && ([l] + ls)[|ls|] == ls[|ls| - 1]
  {
  }

  lemma JoinsAssociate(a: string, b: string, c: string)
    ensures a + b + c == a + (b + c)
  {
  }

  lemma {:induction false} ConcatFront(l: string, ls: seq<string>)
    ensures Concat([l] + ls) == l + Concat(ls)
  {
    if ls == [] {
      ConcatMore([], l);
      assert [] + [l] == [l] + ls;
    } else {
      ListFront(l, ls);
      ConcatFront(l, ls[..|ls| - 1]);
      JoinsAssociate(l, Concat(ls[..|ls| - 1]), ls[|ls| - 1]);
    }
  }

  lemma {:induction false} LinesOfConcat(ls: seq<string>)
    requires forall l | l in ls :: IsPrintedLine(l)
    ensures Lines(Concat(ls)) == ls
  {
    if ls != [] {
      var rest := ls[1..];
      assert ls == [ls[0]] + rest;
      ConcatFront(ls[0], rest);
      LinesOfConcat(rest);
      LinesOfOne(ls[0], Concat(rest));
    }
  }

  /* The lines of any text */

  /** fgets stops after a newline, or when its buffer of 1024 is full, or at the end of the text. */
  predicate IsLine(l: string, last: bool) {
    && 0 < |l| <= 1023 && (forall k | 0 <= k < |l| - 1 :: l[k] != NEWLINE)
    && (!last ==> l[|l| - 1] == NEWLINE || |l| == 1023)
  }

  predicate AreLines(ls: seq<string>) {
    forall k | 0 <= k < |ls| :: IsLine(ls[k], k == |ls| - 1)
  }

  /** Put together, the lines are the text. */
  lemma {:induction false} LinesAre(text: string)
    ensures Join(Lines(text)) == text && AreLines(Lines(text))
  {
    hide IsLine, AreLines, Join;
    if text == "" {
      NoLine();
    } else {
      var n := ChunkLength(text, LINE_MAX);
      LinesAre(text[n..]);
      FirstLine(text, n);
      OneMoreLine(text[..n], Lines(text[n..]));
      assert text == text[..n] + text[n..];
    }
  }

  lemma NoLine()
    ensures Join([]) == "" && AreLines([])
  {
  }

  lemma OneMoreLine(l: string, ls: seq<string>)
    requires AreLines(ls) && IsLine(l, ls == [])
    ensures Join([l] + ls) == l + Join(ls) && AreLines([l] + ls)
  {
    hide IsLine;
    assert ([l] + ls)[1..] == ls;
    forall k | 0 <= k < |[l] + ls|
      ensures IsLine(([l] + ls)[k], k == |[l] + ls| - 1)
    {
      if k > 0 {
        assert IsLine(ls[k - 1], k - 1 == |ls| - 1);
      }
    }
  }

  lemma FirstLine(text: string, n: nat)
    requires text != "" && n == ChunkLength(text, LINE_MAX)
    ensures IsLine(text[..n], Lines(text[n..]) == [])
  {
    assert text[..n - 1] == text[..n][..n - 1];
    forall k | 0 <= k < n - 1
      ensures text[..n][k] != NEWLINE
    {
      assert text[..n][k] == text[..n - 1][k];
    }
  }

  function Join(ls: seq<string>): string {
    if ls == [] then "" else ls[0] + Join(ls[1..])
  }

  /** read_config on any text: every variable ends with the value of the last line that names it, or with
      its default. */
  lemma FileMeans(text: string, ff: FloatFormat)
    ensures var r := ReadText(text, ff);
            && HasVars(r)
            && (forall name | name in INT_VARS :: r.ints[name] == Last(Lines(text), name, DEFAULTS.ints[name], Atoi))
            && (forall name | name in FLOAT_VARS ::
                  r.floats[name] == Last(Lines(text), name, DEFAULTS.floats[name], ff.read))
            && r.modFile == Last(Lines(text), MOD_FILE, "", Truncate)
  {
    hide Lines, ReadLines, Last;
    DefaultsHaveVars();
    LastAssignmentWins(DEFAULTS, Lines(text), ff);
  }

  lemma DefaultsHaveVars()
    ensures HasVars(DEFAULTS)
  {
    assert forall n :: n in DEFAULTS.ints.Keys <==> n in INT_VARS;
    assert forall n :: n in DEFAULTS.floats.Keys <==> n in FLOAT_VARS;
  }

  /** The defaults, one by one. */
  lemma DefaultsAre()
    ensures var d := DEFAULTS.ints;
            && d["touch_x_margin"] == 100 && d["io_cache_block_num"] == 64 && d["io_cache_block_size"] == 65536
            && d["trilinear_filter"] == 0 && d["msaa"] == 1 && d["disable_mipmaps"] == 0 && d["language"] == 0
            && d["crouch_toggle"] == 1 && d["character_shadows"] == 1 && d["drop_highest_lod"] == 1
    ensures DEFAULTS.floats["decal_limit"] == 0.33 && DEFAULTS.floats["debris_limit"] == 0.33 && DEFAULTS.modFile == ""
  {
    NamesDiffer();
    assert INT_VARS[0] == "touch_x_margin";
  }

  /* What a printed line says */

  function Trim(s: string): (r: string)
    ensures |r| <= |s|
  {
    TrimEnd(DropSpaces(s))
  }

  lemma DropBeforeNewline(s: string)
    ensures DropSpaces(s + "\n") == if DropSpaces(s) == "" then "" else DropSpaces(s) + "\n"
  {
    hide IsSpace, DropSpaces;
    SpaceChars();
    var u, k := s + "\n", |s| - |DropSpaces(s)|;
    assert u[..k] == s[..k];
    if DropSpaces(s) == "" {
      assert s[..k] == s && u[..|u|] == s + "\n";
      DropSpacesIs(u, |u|);
    } else {
      assert u[k] == DropSpaces(s)[0];
      DropSpacesIs(u, k);
      assert u[k..] == s[k..] + "\n";
    }
  }

  lemma DropAfterSpace(s: string)
    ensures DropSpaces(" " + s) == DropSpaces(s)
  {
    hide IsSpace, DropSpaces;
    SpaceChars();
    var u, k := " " + s, |s| - |DropSpaces(s)|;
    assert u[..k + 1] == " " + s[..k];
    if k < |s| {
      assert u[k + 1] == DropSpaces(s)[0];
    }
    DropSpacesIs(u, k + 1);
    assert u[k + 1..] == s[k..];
  }

  lemma TrimBeforeNewline(s: string)
    ensures TrimEnd(s + "\n") == TrimEnd(s)
  {
    hide IsSpace;
    SpaceChars();
    assert (s + "\n")[..|s|] == s;
  }

  lemma TrimLine(value: string)
    ensures Trim(" " + value + "\n") == Trim(value)
  {
    hide IsSpace, DropSpaces, TrimEnd;
    var s := value + "\n";
    assert " " + value + "\n" == " " + s;
    DropAfterSpace(s);
    DropBeforeNewline(value);
    if DropSpaces(value) != "" {
      TrimBeforeNewline(DropSpaces(value));
    }
  }

  lemma SpaceChars()
    ensures IsSpace(' ') && IsSpace(NEWLINE)
  {
  }

  lemma TokenOfLine(name: string, value: string)
    requires IsName(name) && NUL !in value
    ensures Tokenize(CStr(Line(name, value))) == Some(Pair(name, Trim(value)))
  {
    hide IsSpace, DropSpaces, TrimEnd, FirstWord, StrLen, CStr;
    var u := Line(name, value);
    SpaceChars();
    assert u[..|u|] == u && NUL !in u;
    StrLenIs(u, |u|);
    DropSpacesIs(u, 0);
    assert u[..|name|] == name && u[|name|] == ' ' && u[|name|..] == " " + value + "\n";
    FirstWordIs(u, |name|);
    TrimLine(value);
  }
}
