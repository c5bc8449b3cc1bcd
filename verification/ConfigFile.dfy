/** config.c: the file format, reading and writing it, and what survives the way through a file.

    The C file lists its variables once, in the macro CONFIG_VARS, and keys the file by their names.
    So does this model: integer and float variables live in maps from names to values. */
module ConfigFile {
  import opened Options
  import opened CText

  const INT_VARS: seq<string> := [
    "touch_x_margin", "io_cache_block_num", "io_cache_block_size", "trilinear_filter", "msaa",
    "disable_mipmaps", "language", "crouch_toggle", "character_shadows", "drop_highest_lod"]
  const FLOAT_VARS: seq<string> := ["decal_limit", "debris_limit"]
  const MOD_FILE := "mod_file"
  const MOD_FILE_MAX := 255
  const LINE_MAX := 1023

  /** printf("%g") and atof, which the model leaves open. */
  datatype FloatFormat = FloatFormat(show: real -> string, read: string -> real) {
    /** A printed float is a short word. */
    ghost predicate Ok() {
      forall x: real :: NoSpaces(show(x)) && NUL !in show(x) && |show(x)| <= 100
    }
  }

  datatype Settings = Settings(ints: map<string, int>, floats: map<string, real>, modFile: string)

  const DEFAULT_INTS: map<string, int> := map[
    "touch_x_margin" := 100, "io_cache_block_num" := 64, "io_cache_block_size" := 65536,
    "trilinear_filter" := 0, "msaa" := 1, "disable_mipmaps" := 0, "language" := 0,
    "crouch_toggle" := 1, "character_shadows" := 1, "drop_highest_lod" := 1]

  const DEFAULTS := Settings(DEFAULT_INTS, map["decal_limit" := 0.33, "debris_limit" := 0.33], "")

  /* Reading */

  /** How much of the text one fgets takes: up to and including a newline, at most max characters. */
  function ChunkLength(s: string, max: nat): (n: nat)
    ensures n <= |s| && n <= max && (s != "" && max > 0 ==> n > 0)
    ensures NEWLINE !in s[..if n > 0 then n - 1 else 0]
    ensures n < |s| && n < max ==> n > 0 && s[n - 1] == NEWLINE
  {
    if s == "" || max == 0 then 0
    else if s[0] == NEWLINE then 1
    else 1 + ChunkLength(s[1..], max - 1)
  }

  /** What successive calls of fgets return. */
  function Lines(text: string): (ls: seq<string>)
  {
    if text == "" then []
    else
      var n := ChunkLength(text, LINE_MAX);
      [text[..n]] + Lines(text[n..])
  }

  function Truncate(s: string): (r: string)
    ensures r <= s && |r| == if |s| < 256 then |s| else 255
  {
    if |s| <= MOD_FILE_MAX then s else s[..MOD_FILE_MAX]
  }

  function Assign(c: Settings, name: string, value: string, ff: FloatFormat): Settings {
    if name in INT_VARS then c.(ints := c.ints[name := Atoi(value)])
    else if name in FLOAT_VARS then c.(floats := c.floats[name := ff.read(value)])
    else if name == MOD_FILE then c.(modFile := Truncate(value))
    else c
  }

  function ReadLine(c: Settings, line: string, ff: FloatFormat): Settings {
    match Tokenize(CStr(line))
    case Some(Pair(name, value)) => Assign(c, name, value, ff)
    case None => c
  }

  function ReadLines(c: Settings, ls: seq<string>, ff: FloatFormat): Settings {
    if ls == [] then c else ReadLine(ReadLines(c, ls[..|ls| - 1], ff), ls[|ls| - 1], ff)
  }

  /** What read_config makes of a file. */
  function ReadText(text: string, ff: FloatFormat): Settings {
    ReadLines(DEFAULTS, Lines(text), ff)
  }

  /* Writing */

  function Line(name: string, value: string): string { name + " " + value + "\n" }

  function Get<T>(m: map<string, T>, name: string, default: T): T {
    if name in m then m[name] else default
  }

  function IntLines(c: Settings, n: nat): (ls: seq<string>)
    requires n <= |INT_VARS|
    ensures |ls| == n
    ensures forall i | 0 <= i < n :: ls[i] == Line(INT_VARS[i], Show(Get(c.ints, INT_VARS[i], 0)))
  {
    if n == 0 then [] else IntLines(c, n - 1) + [Line(INT_VARS[n - 1], Show(Get(c.ints, INT_VARS[n - 1], 0)))]
  }

  function FloatLines(c: Settings, ff: FloatFormat, n: nat): (ls: seq<string>)
    requires n <= |FLOAT_VARS|
    ensures |ls| == n
    ensures forall i | 0 <= i < n :: ls[i] == Line(FLOAT_VARS[i], ff.show(Get(c.floats, FLOAT_VARS[i], 0.0)))
  {
    if n == 0 then []
    else FloatLines(c, ff, n - 1) + [Line(FLOAT_VARS[n - 1], ff.show(Get(c.floats, FLOAT_VARS[n - 1], 0.0)))]
  }

  function ModLines(c: Settings): seq<string> {
    if c.modFile != "" then [Line(MOD_FILE, c.modFile)] else []
  }

  /** What write_config prints, call by call.  mod_file is printed only when it is not empty. */
  function Written(c: Settings, ff: FloatFormat): seq<string> {
    IntLines(c, |INT_VARS|) + FloatLines(c, ff, |FLOAT_VARS|) + ModLines(c)
  }

  function Concat(ls: seq<string>): string {
    if ls == [] then "" else Concat(ls[..|ls| - 1]) + ls[|ls| - 1]
  }

  function WriteText(c: Settings, ff: FloatFormat): string {
    Concat(Written(c, ff))
  }

  /* The program */

  /** The global config. */
  class Config {
    var ints: map<string, int>
    var floats: map<string, real>
    var modFile: string

    function Value(): Settings
      reads this
    {
      Settings(ints, floats, modFile)
    }

    constructor ()
      ensures Value() == DEFAULTS
    {
      ints, floats, modFile := DEFAULTS.ints, DEFAULTS.floats, DEFAULTS.modFile;
    }

    method ParseVar(name: string, value: string, ff: FloatFormat)
      modifies this
      ensures Value() == Assign(old(Value()), name, value, ff)
    {
      if name in INT_VARS {
        ints := ints[name := Atoi(value)];
      } else if name in FLOAT_VARS {
        floats := floats[name := ff.read(value)];
      } else if name == MOD_FILE {
        modFile := Truncate(value);
      }
    }

    /** read_config; None is a file that cannot be opened. */
    method ReadConfig(file: Option<string>, ff: FloatFormat) returns (res: int)
      modifies this
      ensures file.None? ==> res == -1 && Value() == DEFAULTS
      ensures file.Some? ==> res == 0 && Value() == ReadText(file.value, ff)
    {
      hide Lines, ReadLine, CStr, ChunkLength, Tokenize, Assign;
      ints, floats, modFile := DEFAULTS.ints, DEFAULTS.floats, DEFAULTS.modFile;
      if file.None? {
        return -1;
      }
      var text := file.value;
      var line := new char[1024](i => NUL);
      var pos, eof := 0, false;
      assert text[pos..] == text;
      ghost var done: seq<string> := [];
      while !eof
        invariant pos <= |text| && (eof ==> pos == |text|)
        invariant Lines(text) == done + Lines(text[pos..])
        invariant Value() == ReadLines(DEFAULTS, done, ff)
        decreases |text| - pos, !eof
      {
        ghost var start := pos;
        var got, next, end := Fgets(line, text, pos);
        pos, eof := next, end;
        if got {
          ghost var chunk := text[start..pos];
          LinesStep(text, start, pos);
          ReadMore(DEFAULTS, done, chunk, ff);
          done := done + [chunk];
          ParseLine(line, chunk, ff);
        }
      }
      NoLines(text);
      assert done + [] == done;
      res := 0;
    }

    /** One line, in the buffer. */
    method ParseLine(line: array<char>, ghost chunk: string, ff: FloatFormat)
      requires NUL in line[..] && CStr(line[..]) == CStr(chunk)
      modifies this, line
      ensures Value() == ReadLine(old(Value()), chunk, ff)
    {
      hide CStr, Tokenize, Assign;
      var name, value := SplitLine(line);
      if value >= 0 {
        ParseVar(CStr(line[name..]), CStr(line[value..]), ff);
      }
    }

    /** fgets(line, sizeof(line), f), on the unread part of the text. */
    static method Fgets(line: array<char>, text: string, pos: nat) returns (got: bool, next: nat, eof: bool)
      requires line.Length == LINE_MAX + 1 && pos <= |text|
      modifies line
      ensures got == (pos < |text|)
      ensures next == pos + ChunkLength(text[pos..], LINE_MAX)
      ensures eof ==> next == |text|
      ensures !got ==> eof
      ensures got ==> NUL in line[..] && CStr(line[..]) == CStr(text[pos..next])
    {
      var n := ChunkLength(text[pos..], LINE_MAX);
      next := pos + n;
      if pos == |text| {
        return false, next, true;
      }
      for k := 0 to n
        invariant forall i | 0 <= i < k :: line[i] == text[pos + i]
      {
        line[k] := text[pos + k];
      }
      line[n] := NUL;
      got := true;
      eof := next == |text| && n < LINE_MAX && text[next - 1] != NEWLINE;
      assert line[n] in line[..];
      CStrPrefix(line[..], text[pos..next]);
    }

    /** write_config, returning what it prints. */
    method WriteConfig(ff: FloatFormat) returns (text: string)
      ensures text == WriteText(Value(), ff)
    {
      text := "";
      ghost var done: seq<string> := [];
      for i := 0 to |INT_VARS|
        invariant done == IntLines(Value(), i) && text == Concat(done)
      {
        var value := Get(ints, INT_VARS[i], 0);
        ConcatMore(done, Line(INT_VARS[i], Show(value)));
        done := done + [Line(INT_VARS[i], Show(value))];
        text := text + Line(INT_VARS[i], Show(value));
      }
      ghost var intLines := done;
      for i := 0 to |FLOAT_VARS|
        invariant done == intLines + FloatLines(Value(), ff, i) && text == Concat(done)
      {
        var value := Get(floats, FLOAT_VARS[i], 0.0);
        ConcatMore(done, Line(FLOAT_VARS[i], ff.show(value)));
        done := done + [Line(FLOAT_VARS[i], ff.show(value))];
        text := text + Line(FLOAT_VARS[i], ff.show(value));
      }
      if modFile != "" {
        ConcatMore(done, Line(MOD_FILE, modFile));
        text := text + Line(MOD_FILE, modFile);
        done := done + [Line(MOD_FILE, modFile)];
      }
      assert done == Written(Value(), ff);
    }
  }

  lemma NoLines(text: string)
    ensures Lines(text[|text|..]) == []
  {
  }

  lemma LinesStep(text: string, start: nat, next: nat)
    requires start < |text| && next == start + ChunkLength(text[start..], LINE_MAX)
    ensures Lines(text[start..]) == [text[start..next]] + Lines(text[next..])
  {
    assert text[start..][..next - start] == text[start..next];
    assert text[start..][next - start..] == text[next..];
  }

  lemma ReadMore(c: Settings, ls: seq<string>, l: string, ff: FloatFormat)
    ensures ReadLines(c, ls + [l], ff) == ReadLine(ReadLines(c, ls, ff), l, ff)
  {
    assert (ls + [l])[..|ls|] == ls;
  }

  lemma ConcatMore(ls: seq<string>, l: string)
    ensures Concat(ls + [l]) == Concat(ls) + l
  {
    assert (ls + [l])[..|ls|] == ls;
  }

  /** The C string in a buffer that starts with s and a NUL is that of s. */
  lemma CStrPrefix(t: string, s: string)
    requires |s| < |t| && t[..|s|] == s && t[|s|] == NUL
    ensures CStr(t) == CStr(s)
  {
    var n := StrLen(s);
    assert t[..n] == s[..n];
    StrLenIs(t, n);
  }
}
