/** Writing the configuration and reading it back. */
module ConfigRoundTrip {
  import opened Options
  import opened CText
  import opened ConfigFile
  import opened ConfigLaws

  /** Settings as the C struct can hold them: 32-bit integers, and a string that fits its buffer. */
  ghost predicate Storable(c: Settings) {
    && HasVars(c)
    && (forall n | n in INT_VARS :: IsInt(c.ints[n]))
    && |c.modFile| <= MOD_FILE_MAX && NUL !in c.modFile
  }

  /* The lines that write_config prints */

  function WrittenName(k: nat): string
    requires k < 13
  {
    if k < 10 then INT_VARS[k] else if k < 12 then FLOAT_VARS[k - 10] else MOD_FILE
  }

  function WrittenValue(c: Settings, ff: FloatFormat, k: nat): string
    requires k < 13
  {
    if k < 10 then Show(Get(c.ints, INT_VARS[k], 0))
    else if k < 12 then ff.show(Get(c.floats, FLOAT_VARS[k - 10], 0.0))
    else c.modFile
  }

  lemma WrittenLine(c: Settings, ff: FloatFormat, k: nat)
    requires k < |Written(c, ff)|
    ensures |Written(c, ff)| == if c.modFile != "" then 13 else 12
    ensures Written(c, ff)[k] == Line(WrittenName(k), WrittenValue(c, ff, k))
  {
    hide Line, Show, Get;
  }

  lemma WrittenNamesDiffer(i: nat, j: nat)
    requires i < 13 && j < 13 && i != j
    ensures WrittenName(i) != WrittenName(j) && IsName(WrittenName(i))
  {
    hide IsName;
    NamesDiffer();
    NamesAreNames();
  }

  lemma WordHasNoNewline(s: string)
    requires NoSpaces(s)
    ensures NEWLINE !in s
  {
    SpaceChars();
  }

  lemma FloatFits(ff: FloatFormat, x: real)
    requires ff.Ok()
    ensures var v := ff.show(x); |v| <= 100 && NEWLINE !in v && NUL !in v && Trim(v) == v
  {
    assert NoSpaces(ff.show(x));
    WordHasNoNewline(ff.show(x));
    TrimWord(ff.show(x));
  }

  lemma WrittenValueFits(c: Settings, ff: FloatFormat, k: nat)
    requires Storable(c) && NEWLINE !in c.modFile && ff.Ok() && k < 13
    ensures var v := WrittenValue(c, ff, k); |v| <= MOD_FILE_MAX && NEWLINE !in v && NUL !in v
  {
    hide IsSpace, Show, IsInt, NoSpaces;
    if k < 10 {
      assert INT_VARS[k] in INT_VARS;
      ShowLength(c.ints[INT_VARS[k]]);
    } else if k < 12 {
      FloatFits(ff, Get(c.floats, FLOAT_VARS[k - 10], 0.0));
    }
  }

  lemma PrintedLine(name: string, value: string)
    requires IsName(name) && |value| <= MOD_FILE_MAX && NEWLINE !in value
    ensures IsPrintedLine(Line(name, value))
  {
    WordHasNoNewline(name);
    var l := Line(name, value);
    assert l[..|l| - 1] == name + " " + value;
  }

  /** The file consists of the printed lines. */
  lemma LinesOfFile(c: Settings, ff: FloatFormat)
    requires Storable(c) && NEWLINE !in c.modFile && ff.Ok()
    ensures Lines(WriteText(c, ff)) == Written(c, ff)
  {
    hide Line, IsPrintedLine, Written, Storable, WrittenName, WrittenValue;
    var ls := Written(c, ff);
    forall l | l in ls
      ensures IsPrintedLine(l)
    {
      var k :| 0 <= k < |ls| && ls[k] == l;
      WrittenLine(c, ff, k);
      WrittenValueFits(c, ff, k);
      WrittenNamesDiffer(k, if k == 0 then 1 else 0);
      PrintedLine(WrittenName(k), WrittenValue(c, ff, k));
    }
    LinesOfConcat(ls);
  }

  /** Line k gives its own variable its value, and no other. */
  lemma WrittenGives(c: Settings, ff: FloatFormat, i: nat, k: nat)
    requires Storable(c) && NEWLINE !in c.modFile && ff.Ok() && i < |Written(c, ff)| && k < 13
    ensures Gives(Written(c, ff)[i], WrittenName(k)) == if i == k then Some(Trim(WrittenValue(c, ff, k))) else None
  {
    hide Line, CStr, Tokenize, IsName, Written, Storable, WrittenName, WrittenValue, Trim;
    WrittenLine(c, ff, i);
    WrittenValueFits(c, ff, i);
    WrittenNamesDiffer(i, if i == k then (if k == 0 then 1 else 0) else k);
    TokenOfLine(WrittenName(i), WrittenValue(c, ff, i));
  }

  lemma LastSomeIs(vs: seq<Option<string>>, k: int)
    requires -1 <= k < |vs| && (k >= 0 ==> vs[k].Some?) && forall i | 0 <= i < |vs| && i != k :: vs[i] == None
    ensures LastSome(vs) == k
  {
  }

  lemma LastWritten<T>(c: Settings, ff: FloatFormat, k: nat, x: T, f: string -> T)
    requires Storable(c) && NEWLINE !in c.modFile && ff.Ok() && k < 13
    ensures Last(Written(c, ff), WrittenName(k), x, f) ==
      if k < |Written(c, ff)| then f(Trim(WrittenValue(c, ff, k))) else x
  {
    hide Gives, Written, Storable, WrittenName, WrittenValue, Trim;
    var ls := Written(c, ff);
    var vs := Given(ls, WrittenName(k));
    forall i | 0 <= i < |ls|
      ensures vs[i] == if i == k then Some(Trim(WrittenValue(c, ff, k))) else None
    {
      WrittenGives(c, ff, i, k);
    }
    LastSomeIs(vs, if k < |ls| then k else -1);
  }

  lemma TrimWord(s: string)
    requires NoSpaces(s)
    ensures Trim(s) == s
  {
    DropSpacesIs(s, 0);
    TrimEndIs(s, |s|);
  }

  /** Every integer comes back, every float as far as its printed form allows, and mod_file trimmed. */
  lemma {:induction false} ReadBack(c: Settings, ff: FloatFormat)
    requires Storable(c) && NEWLINE !in c.modFile && ff.Ok()
    ensures ReadText(WriteText(c, ff), ff).ints == c.ints
    ensures ReadText(WriteText(c, ff), ff).floats == map n | n in c.floats :: ff.read(ff.show(c.floats[n]))
    ensures ReadText(WriteText(c, ff), ff).modFile == Trim(c.modFile)
  {
    hide Show, Atoi, Last, Lines, WriteText, ReadLines, Written, Trim, Gives, NoSpaces, IsInt, Truncate;
    var ls := Written(c, ff);
    LinesOfFile(c, ff);
    DefaultKeys();
    LastAssignmentWins(DEFAULTS, ls, ff);
    var r := ReadLines(DEFAULTS, ls, ff);
    forall n | n in INT_VARS
      ensures r.ints[n] == c.ints[n]
    {
      var k :| 0 <= k < 10 && INT_VARS[k] == n;
      IntWritten(c, ff, k);
    }
    forall n | n in FLOAT_VARS
      ensures r.floats[n] == ff.read(ff.show(c.floats[n]))
    {
      var k :| 0 <= k < 2 && FLOAT_VARS[k] == n;
      FloatWritten(c, ff, k);
    }
    ModFileWritten(c, ff);
  }

  lemma DefaultKeys()
    ensures HasVars(DEFAULTS)
    ensures forall n | n in INT_VARS :: IsInt(DEFAULTS.ints[n])
  {
    assert forall n :: n in DEFAULTS.ints.Keys <==> n in INT_VARS;
    assert forall n :: n in DEFAULTS.floats.Keys <==> n in FLOAT_VARS;
  }

  lemma IntWritten(c: Settings, ff: FloatFormat, k: nat)
    requires Storable(c) && NEWLINE !in c.modFile && ff.Ok() && k < 10
    ensures forall x :: Last(Written(c, ff), INT_VARS[k], x, Atoi) == c.ints[INT_VARS[k]]
  {
    hide Atoi, Last, Written, Trim, NoSpaces, Show, IsInt;
    assert INT_VARS[k] in INT_VARS;
    var n := c.ints[INT_VARS[k]];
    WrittenCount(c, ff);
    TrimWord(Show(n));
    AtoiShow(n);
    forall x
      ensures Last(Written(c, ff), INT_VARS[k], x, Atoi) == n
    {
      LastWritten(c, ff, k, x, Atoi);
    }
  }

  lemma FloatWritten(c: Settings, ff: FloatFormat, k: nat)
    requires Storable(c) && NEWLINE !in c.modFile && ff.Ok() && k < 2
    ensures forall x: real ::
      Last(Written(c, ff), FLOAT_VARS[k], x, ff.read) == ff.read(ff.show(c.floats[FLOAT_VARS[k]]))
  {
    hide Last, Written, Trim, NoSpaces, IsInt;
    assert FLOAT_VARS[k] in FLOAT_VARS;
    WrittenCount(c, ff);
    FloatFits(ff, c.floats[FLOAT_VARS[k]]);
    forall x: real
      ensures Last(Written(c, ff), FLOAT_VARS[k], x, ff.read) == ff.read(ff.show(c.floats[FLOAT_VARS[k]]))
    {
      LastWritten(c, ff, 10 + k, x, ff.read);
    }
  }

  lemma WrittenCount(c: Settings, ff: FloatFormat)
    ensures |Written(c, ff)| == if c.modFile != "" then 13 else 12
  {
  }

  lemma ModFileWritten(c: Settings, ff: FloatFormat)
    requires Storable(c) && NEWLINE !in c.modFile && ff.Ok()
    ensures Last(Written(c, ff), MOD_FILE, "", Truncate) == Trim(c.modFile)
  {
    hide Last, Written;
    LastWritten(c, ff, 12, "", Truncate);
    WrittenCount(c, ff);
  }

  /* What reading can produce */

  /** Settings as read_config leaves them: mod_file is one line without leading whitespace.  It may end
      in whitespace, when strlcpy cut it. */
  ghost predicate Readable(c: Settings) {
    Storable(c) && NEWLINE !in c.modFile && (c.modFile != "" ==> !IsSpace(c.modFile[0]))
  }

  /** A chunk that fgets returns: a newline can only come last. */
  predicate IsChunk(l: string) {
    forall k | 0 <= k < |l| - 1 :: l[k] != NEWLINE
  }

  lemma {:induction false} LinesAreChunks(text: string)
    ensures forall l | l in Lines(text) :: IsChunk(l)
  {
    if text != "" {
      var n := ChunkLength(text, LINE_MAX);
      LinesAreChunks(text[n..]);
      assert text[..n][..n - 1] == text[..n - 1];
    }
  }

  /** What follows the first word of a line, without leading whitespace. */
  function Rest(u: string): (r: string) {
    var s := DropSpaces(u);
    DropSpaces(s[|FirstWord(s)|..])
  }

  lemma TokenValue(u: string)
    requires Tokenize(u).Some?
    ensures Tokenize(u).value.value == TrimEnd(Rest(u))
  {
    hide IsSpace, DropSpaces, FirstWord, TrimEnd;
  }

  predicate IsSuffix(t: string, u: string) {
    |t| <= |u| && t == u[|u| - |t|..]
  }

  lemma SuffixOfSuffix(u: string, s: string, t: string)
    requires IsSuffix(s, u) && IsSuffix(t, s)
    ensures IsSuffix(t, u)
  {
    assert u[|u| - |s|..][|s| - |t|..] == u[|u| - |t|..];
  }

  lemma CutIsSuffix(s: string, k: nat)
    requires k <= |s|
    ensures IsSuffix(s[k..], s)
  {
  }

  lemma DropIsSuffix(s: string)
    ensures IsSuffix(DropSpaces(s), s)
  {
    hide IsSpace;
  }

  lemma RestIsSuffix(u: string)
    ensures IsSuffix(Rest(u), u)
  {
    hide IsSpace, DropSpaces, IsSuffix;
    var s := DropSpaces(u);
    var t := s[|FirstWord(s)|..];
    DropIsSuffix(u);
    CutIsSuffix(s, |FirstWord(s)|);
    DropIsSuffix(t);
    SuffixOfSuffix(u, s, t);
    SuffixOfSuffix(u, t, Rest(u));
  }

  lemma FirstOfTrim(r: string)
    requires r != "" ==> !IsSpace(r[0])
    ensures TrimEnd(r) != "" ==> !IsSpace(TrimEnd(r)[0]) && !IsSpace(TrimEnd(r)[|TrimEnd(r)| - 1])
  {
    hide IsSpace;
  }

  lemma ValueIsClean(u: string)
    requires Tokenize(u).Some? && NUL !in u && IsChunk(u)
    ensures var v := Tokenize(u).value.value;
            NUL !in v && NEWLINE !in v && (v != "" ==> !IsSpace(v[0]))
  {
    hide Tokenize, Rest, IsSpace, TrimEnd, DropSpaces;
    var v, r := Tokenize(u).value.value, Rest(u);
    TokenValue(u);
    RestIsSuffix(u);
    RestStarts(u);
    FirstOfTrim(r);
    SpaceChars();
    forall k | 0 <= k < |v|
      ensures v[k] != NEWLINE && v[k] != NUL
    {
      assert v[k] == r[k] == u[|u| - |r| + k];
    }
  }

  lemma RestStarts(u: string)
    ensures Rest(u) != "" ==> !IsSpace(Rest(u)[0])
  {
    hide IsSpace;
  }

  lemma ReadLineReadable(c: Settings, line: string, ff: FloatFormat)
    requires Readable(c) && IsChunk(line)
    ensures Readable(ReadLine(c, line, ff))
  {
    hide Tokenize, Atoi, IsSpace, IsInt, StrLen;
    NamesDiffer();
    var u := CStr(line);
    if Tokenize(u).Some? {
      ValueIsClean(u);
    }
  }

  lemma {:induction false} ReadLinesReadable(c: Settings, ls: seq<string>, ff: FloatFormat)
    requires Readable(c) && forall l | l in ls :: IsChunk(l)
    ensures Readable(ReadLines(c, ls, ff))
  {
    hide Readable, ReadLine, IsChunk;
    if ls != [] {
      ReadLinesReadable(c, ls[..|ls| - 1], ff);
      ReadLineReadable(ReadLines(c, ls[..|ls| - 1], ff), ls[|ls| - 1], ff);
    }
  }

  /** Whatever the file: it reads as settings of this form. */
  lemma ReadTextReadable(text: string, ff: FloatFormat)
    ensures Readable(ReadText(text, ff))
  {
    hide Lines, IsChunk, ReadLines;
    DefaultKeys();
    LinesAreChunks(text);
    ReadLinesReadable(DEFAULTS, Lines(text), ff);
  }

  /* The round trip */

  /** Writing the settings and reading them back. */
  function Normal(c: Settings, ff: FloatFormat): Settings {
    ReadText(WriteText(c, ff), ff)
  }

  predicate IsTrimmed(s: string) {
    s != "" ==> !IsSpace(s[0]) && !IsSpace(s[|s| - 1])
  }

  /** mod_file survives if and only if it is one line without whitespace at either end.  The integers
      survive whenever it is one line, and everything does when, besides, the floats are among those
      that survive printing. */
  lemma {:induction false} RoundTrip(c: Settings, ff: FloatFormat)
    requires Storable(c) && ff.Ok()
    ensures NEWLINE !in c.modFile ==> Normal(c, ff).ints == c.ints
    ensures Normal(c, ff).modFile == c.modFile <==>
      NEWLINE !in c.modFile && IsTrimmed(c.modFile)
    ensures Normal(c, ff) == c <==>
      && NEWLINE !in c.modFile && IsTrimmed(c.modFile)
      && forall n | n in FLOAT_VARS :: ff.read(ff.show(c.floats[n])) == c.floats[n]
  {
    hide IsSpace, ReadText, WriteText, Trim, IsTrimmed, IsInt;
    ReadTextReadable(WriteText(c, ff), ff);
    if NEWLINE !in c.modFile {
      ReadBack(c, ff);
      TrimFixed(c.modFile);
    }
  }

  /** A mod_file that the C struct can hold and that does not survive. */
  lemma SpaceIsLost(ff: FloatFormat)
    requires ff.Ok()
    ensures var c := DEFAULTS.(modFile := "a ");
            Storable(c) && Normal(c, ff).modFile != c.modFile
  {
    hide ReadText, WriteText, Trim, Normal;
    DefaultKeys();
    var c := DEFAULTS.(modFile := "a ");
    assert c.modFile[|c.modFile| - 1] == ' ';
    RoundTrip(c, ff);
  }

  lemma TrimFixed(s: string)
    ensures Trim(s) == s <==> IsTrimmed(s)
  {
    hide IsSpace, DropSpaces, TrimEnd;
    if s != "" {
      if !IsSpace(s[0]) && !IsSpace(s[|s| - 1]) {
        DropSpacesIs(s, 0);
        TrimEndIs(s, |s|);
      } else {
        assert |Trim(s)| <= |DropSpaces(s)| <= |s|;
      }
    }
  }

  lemma ReadableBack(c: Settings, ff: FloatFormat)
    requires Readable(c) && ff.Ok()
    ensures Readable(Normal(c, ff))
    ensures Normal(c, ff).ints == c.ints && Normal(c, ff).modFile == TrimEnd(c.modFile)
  {
    hide IsSpace, ReadText, WriteText, DropSpaces, TrimEnd;
    ReadTextReadable(WriteText(c, ff), ff);
    ReadBack(c, ff);
    DropSpacesIs(c.modFile, 0);
  }

  lemma TrimEndTwice(s: string)
    ensures TrimEnd(TrimEnd(s)) == TrimEnd(s)
  {
    hide IsSpace;
    TrimEndIs(TrimEnd(s), |TrimEnd(s)|);
  }

  /** For any file whatever, writing and reading again what was read from it changes no integer, at most
      drops whitespace at the end of mod_file, and changes nothing when done once more. */
  lemma Normalisation(text: string, ff: FloatFormat)
    requires ff.Ok()
    ensures var c := ReadText(text, ff);
            var d := Normal(c, ff);
            && d.ints == c.ints && d.modFile == TrimEnd(c.modFile)
            && Normal(d, ff).ints == d.ints && Normal(d, ff).modFile == d.modFile
  {
    hide ReadText, Normal, Readable, TrimEnd;
    var c := ReadText(text, ff);
    ReadTextReadable(text, ff);
    ReadableBack(c, ff);
    ReadableBack(Normal(c, ff), ff);
    TrimEndTwice(c.modFile);
  }
}
