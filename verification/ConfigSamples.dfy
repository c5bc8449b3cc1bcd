/** A small config file, and a few printed lines. */
module ConfigSamples {
  import opened Options
  import opened CText
  import opened ConfigFile
  import opened ConfigLaws
  import opened ConfigRoundTrip

  const FIRST := "\tlanguage 3 # german\r\n"
  const SECOND := "# msaa 4\n"
  const THIRD := "crouch_toggle\n"
  const FOURTH := "msaa -07\n"
  const FIFTH := "msa 5\n"
  const SIXTH := "mod_file  a b \n"
  const SAMPLE_LINES := [FIRST, SECOND, THIRD, FOURTH, FIFTH, SIXTH]

  /** A line without NUL is its own C string. */
  lemma Whole(l: string)
    requires NUL !in l
    ensures StrLen(l) == |l| && CStr(l) == l
  {
    assert l[..|l|] == l;
    StrLenIs(l, |l|);
  }

  /** Whitespace, a name, whitespace, a value without whitespace at its ends, whitespace. */
  lemma TokenOf(front: string, name: string, gap: string, value: string, back: string)
    requires AllSpaces(front) && AllSpaces(gap) && AllSpaces(back) && NoSpaces(name) && IsTrimmed(value)
    requires name != "" && name[0] != '#' && gap != "" && NUL !in front + name + gap + value + back
    ensures Tokenize(CStr(front + name + gap + value + back)) == Some(Pair(name, value))
  {
    hide Tokenize, StrLen, CStr, IsSpace;
    var u := front + name + gap + value + back;
    var a, p, b, e := |front|, |front + name|, |front + name + gap|, |front + name + gap + value|;
    Whole(u);
    Parts(front, name, gap, value, back);
    if value != "" {
      TokenIs(u, a, p, b, e);
    } else {
      TokenIs(u, a, p, |u|, |u|);
      assert u[|u|..|u|] == "";
    }
  }

  /** Where the parts are. */
  lemma Parts(front: string, name: string, gap: string, value: string, back: string)
    requires AllSpaces(front) && AllSpaces(gap) && AllSpaces(back) && NoSpaces(name) && IsTrimmed(value)
    requires name != "" && gap != ""
    ensures var u := front + name + gap + value + back;
            var a, p, b, e := |front|, |front + name|, |front + name + gap|, |front + name + gap + value|;
            && u[a..p] == name && u[b..e] == value && u[a] == name[0] && IsSpace(u[p])
            && Spaces(u, 0, a) && NonSpaces(u, a, p) && Spaces(u, p, b) && Spaces(u, e, |u|)
            && (value != "" ==> !IsSpace(u[b]) && !IsSpace(u[e - 1])) && (value == "" ==> Spaces(u, p, |u|))
  {
    hide IsSpace;
    var u := front + name + gap + value + back;
    var a, p, b, e := |front|, |front + name|, |front + name + gap|, |front + name + gap + value|;
    assert forall k | 0 <= k < a :: u[k] == front[k];
    assert forall k | a <= k < p :: u[k] == name[k - a];
    assert forall k | p <= k < b :: u[k] == gap[k - p];
    assert forall k | b <= k < e :: u[k] == value[k - b];
    assert forall k | e <= k < |u| :: u[k] == back[k - e];
  }

  lemma FirstTokens()
    ensures Tokenize(CStr(FIRST)) == Some(Pair("language", "3 # german"))
    ensures Tokenize(CStr(SECOND)) == None
  {
    hide Tokenize, StrLen, CStr;
    assert "\t" + "language" + " " + "3 # german" + "\r\n" == FIRST;
    TokenOf("\t", "language", " ", "3 # german", "\r\n");
    Whole(SECOND);
    CommentLine(SECOND, |SECOND|, 0);
  }

  lemma MiddleTokens()
    ensures Tokenize(CStr(THIRD)) == Some(Pair("crouch_toggle", ""))
    ensures Tokenize(CStr(FOURTH)) == Some(Pair("msaa", "-07"))
  {
    hide Tokenize, StrLen, CStr;
    assert "" + "crouch_toggle" + "\n" + "" + "" == THIRD;
    TokenOf("", "crouch_toggle", "\n", "", "");
    assert "" + "msaa" + " " + "-07" + "\n" == FOURTH;
    TokenOf("", "msaa", " ", "-07", "\n");
  }

  lemma LastTokens()
    ensures Tokenize(CStr(FIFTH)) == Some(Pair("msa", "5"))
    ensures Tokenize(CStr(SIXTH)) == Some(Pair("mod_file", "a b"))
  {
    hide Tokenize, StrLen, CStr;
    assert "" + "msa" + " " + "5" + "\n" == FIFTH;
    TokenOf("", "msa", " ", "5", "\n");
    assert "" + "mod_file" + "  " + "a b" + " \n" == SIXTH;
    TokenOf("", "mod_file", "  ", "a b", " \n");
  }

  /** What the lines give to a name: only the length of the name matters here. */
  lemma GivenBy(name: string, k: int)
    requires -1 <= k < 6
    requires forall i | 0 <= i < 6 && i != k :: Gives(SAMPLE_LINES[i], name) == None
    requires k >= 0 ==> Gives(SAMPLE_LINES[k], name).Some?
    ensures forall x: int :: Last(SAMPLE_LINES, name, x, Atoi) ==
              if k < 0 then x else Atoi(Gives(SAMPLE_LINES[k], name).value)
    ensures forall x: string :: Last(SAMPLE_LINES, name, x, Truncate) ==
              if k < 0 then x else Truncate(Gives(SAMPLE_LINES[k], name).value)
  {
    hide Gives, Atoi, Truncate;
    LastSomeIs(Given(SAMPLE_LINES, name), k);
  }

  lemma GivesAre(name: string)
    ensures Gives(FIRST, name) == if name == "language" then Some("3 # german") else None
    ensures Gives(SECOND, name) == None
    ensures Gives(THIRD, name) == if name == "crouch_toggle" then Some("") else None
    ensures Gives(FOURTH, name) == if name == "msaa" then Some("-07") else None
    ensures Gives(FIFTH, name) == if name == "msa" then Some("5") else None
    ensures Gives(SIXTH, name) == if name == "mod_file" then Some("a b") else None
  {
    hide Tokenize, CStr;
    FirstTokens();
    MiddleTokens();
    LastTokens();
  }

  /** Which line, if any, names a variable. */
  lemma LineOf(name: string)
    requires name != "msa"
    ensures forall x: int :: Last(SAMPLE_LINES, name, x, Atoi) ==
              if name == "language" then Atoi("3 # german")
              else if name == "crouch_toggle" then Atoi("")
              else if name == "msaa" then Atoi("-07")
              else if name == "mod_file" then Atoi("a b")
              else x
    ensures name == "mod_file" ==> forall x: string :: Last(SAMPLE_LINES, name, x, Truncate) == "a b"
  {
    hide Gives, Atoi, Last;
    assert |"language"| == 8 && |"mod_file"| == 8 && "language"[0] != "mod_file"[0];
    assert |"crouch_toggle"| == 13 && |"msaa"| == 4;
    GivesAre(name);
    GivenBy(name, if name == "language" then 0 else if name == "crouch_toggle" then 2
                  else if name == "msaa" then 3 else if name == "mod_file" then 5 else -1);
  }

  lemma Numbers()
    ensures Atoi("3 # german") == 3 && Atoi("") == 0 && Atoi("-07") == -7
  {
    hide Atoi, Decimal;
    DecimalIs("", '3');
    DecimalIs("", '0');
    DecimalIs("0", '7');
    assert "" + ['3'] == "3" && "" + ['0'] == "0" && "0" + ['7'] == "07";
    AtoiOf("", "", "3", " # german");
    assert "" + ("" + ("3" + " # german")) == "3 # german";
    AtoiOf("", "", "", "");
    assert "" + ("" + ("" + "")) == "";
    AtoiOf("", "-", "07", "");
    assert "" + ("-" + ("07" + "")) == "-07";
  }

  lemma SampleLines()
    ensures Lines(Concat(SAMPLE_LINES)) == SAMPLE_LINES
  {
    hide Lines, Concat;
    LinesOfConcat(SAMPLE_LINES);
  }

  /** A variable among the integers is read as the lines say. */
  lemma ReadsInt(name: string, n: int, ff: FloatFormat)
    requires name in INT_VARS && Last(SAMPLE_LINES, name, DEFAULTS.ints[name], Atoi) == n
    ensures Get(ReadText(Concat(SAMPLE_LINES), ff).ints, name, n + 1) == n
  {
    hide Lines, Concat, Last, Atoi, ReadText;
    FileMeans(Concat(SAMPLE_LINES), ff);
    SampleLines();
  }

  lemma Members()
    ensures "touch_x_margin" in INT_VARS && "msaa" in INT_VARS && "language" in INT_VARS && "crouch_toggle" in INT_VARS
  {
    assert INT_VARS[0] == "touch_x_margin" && INT_VARS[4] == "msaa" && INT_VARS[6] == "language";
    assert INT_VARS[7] == "crouch_toggle";
  }

  /** A tab in front, a carriage return behind, text after a number, a comment, a word with nothing but a
      newline after it, a sign and a zero in front, a name that is no variable, spaces inside. */
  lemma SampleReads(ff: FloatFormat)
    ensures var r := ReadText(Concat(SAMPLE_LINES), ff);
            && Get(r.ints, "language", -1) == 3 && Get(r.ints, "crouch_toggle", -1) == 0
            && Get(r.ints, "msaa", -1) == -7 && Get(r.ints, "touch_x_margin", -1) == 100 && r.modFile == "a b"
  {
    hide Lines, Concat, Last, Atoi, ReadText, Get;
    Members();
    Numbers();
    Names();
    DefaultsAre();
    LineOf("language");
    ReadsInt("language", 3, ff);
    LineOf("crouch_toggle");
    ReadsInt("crouch_toggle", 0, ff);
    LineOf("msaa");
    ReadsInt("msaa", -7, ff);
    LineOf("touch_x_margin");
    ReadsInt("touch_x_margin", 100, ff);
    LineOf("mod_file");
    FileMeans(Concat(SAMPLE_LINES), ff);
    SampleLines();
    GetIs(ReadText(Concat(SAMPLE_LINES), ff).ints);
  }

  lemma GetIs(m: map<string, int>)
    requires m.Keys == set n | n in INT_VARS
    ensures forall name, x, y | name in INT_VARS :: Get(m, name, x) == Get(m, name, y)
  {
  }

  lemma Names()
    ensures "touch_x_margin" != "language" && "touch_x_margin" != "crouch_toggle" && "touch_x_margin" != "msaa"
    ensures "touch_x_margin" != "mod_file" && "touch_x_margin" != "msa" && "language" != "mod_file"
    ensures "crouch_toggle" != "language" && "msaa" != "language" && "msaa" != "crouch_toggle" && "msaa" != "msa"
    ensures "mod_file" != "crouch_toggle" && "mod_file" != "msaa"
  {
    assert |"touch_x_margin"| == 14 && |"language"| == 8 && |"crouch_toggle"| == 13 && |"msaa"| == 4;
    assert |"mod_file"| == 8 && |"msa"| == 3 && "language"[0] != "mod_file"[0];
  }

  /** A word that is alone on its line is an assignment of nothing, which is 0 for an integer, as soon as
      anything follows it, were it the newline; only at the end of the file it is ignored. */
  lemma LoneWordAssigns(name: string)
    requires IsName(name)
    ensures Tokenize(CStr(name + "\n")) == Some(Pair(name, "")) && Tokenize(CStr(name)) == None
  {
    hide Tokenize, StrLen, CStr, IsSpace;
    SpaceChars();
    var u := name + "\n";
    assert u[0] == name[0] && forall k | 0 <= k < |name| :: u[k] == name[k];
    Whole(u);
    TokenIs(u, 0, |name|, |u|, |u|);
    assert u[0..|name|] == name && u[|u|..|u|] == "";
    Whole(name);
    LoneWord(name, |name|, 0);
  }

  lemma ShowsAre()
    ensures Show(0) == "0" && Show(100) == "100" && Show(-12) == "-12"
  {
    assert Digits(1) == "1" && Digits(10) == "10" && Digits(100) == "100" && Digits(12) == "12";
  }

  /** What is printed of the defaults, for example. */
  lemma SampleWrites(ff: FloatFormat)
    ensures |Written(DEFAULTS, ff)| == 12
    ensures Written(DEFAULTS, ff)[0] == "touch_x_margin 100\n" && Written(DEFAULTS, ff)[6] == "language 0\n"
  {
    hide Written, Show;
    ShowsAre();
    DefaultsAre();
    WrittenCount(DEFAULTS, ff);
    WrittenLine(DEFAULTS, ff, 0);
    WrittenLine(DEFAULTS, ff, 6);
  }

  lemma SampleFloat(ff: FloatFormat)
    ensures |Written(DEFAULTS, ff)| == 12 && Written(DEFAULTS, ff)[10] == "decal_limit " + ff.show(0.33) + "\n"
  {
    hide Written, Show;
    DefaultsAre();
    WrittenCount(DEFAULTS, ff);
    WrittenLine(DEFAULTS, ff, 10);
    assert "decal_limit" + " " == "decal_limit ";
  }

  lemma SampleString(ff: FloatFormat)
    ensures var c := DEFAULTS.(modFile := "a b");
            |Written(c, ff)| == 13 && Written(c, ff)[12] == "mod_file a b\n"
  {
    hide Written, Show;
    WrittenCount(DEFAULTS.(modFile := "a b"), ff);
    WrittenLine(DEFAULTS.(modFile := "a b"), ff, 12);
  }
}
