/**
 `boot-axf/script.c`: an INI text is cut into lines, and a parameter line into name and value.
 */
module ScriptLines {
  import opened NumberText
  import opened Options
  import opened Sequences

  // ----- lines

  datatype LineType = Error | Comment | Section | Param

  const MAX_LINE: nat := 512

  /** The first line feed behind the first character ends the line; else all of the text does. */
  function LineLength(text: string, from: nat): (n: nat)
    requires 1 <= from < |text|
    ensures from < n <= |text|
    decreases |text| - from
  {
    if text[from] == '\n' || from + 1 == |text| then from + 1 else LineLength(text, from + 1)
  }

  function TypeOf(c: char): LineType {
    if c == ';' || c == '\r' then Comment else if c == '[' then Section else Param
  }

  /** GetScriptLine. It looks at a second character even if there is none, and then the line is
      longer than the text. */
  method GetScriptLine(text: string) returns (len: nat, kind: LineType)
    requires text != ""
    ensures |text| == 1 ==> len == 2 && kind == TypeOf(text[0])
    ensures |text| >= 2 && LineLength(text, 1) > MAX_LINE ==> len == 0 && kind == Error
    ensures |text| >= 2 && LineLength(text, 1) <= MAX_LINE ==> len == LineLength(text, 1) && kind == TypeOf(text[0])
    ensures |text| >= 2 && len == 0 ==> kind == Error && |text| > 512 && forall i :: 1 <= i < 512 ==> text[i] != '\n'
    ensures |text| >= 2 && len != 0 ==>
      && 2 <= len <= |text| && len <= 512 && (text[len - 1] == '\n' || len == |text|)
      && forall i :: 1 <= i < len - 1 ==> text[i] != '\n'
    ensures len != 0 ==>
      kind == if text[0] == ';' || text[0] == '\r' then Comment else if text[0] == '[' then Section else Param
  {
    if |text| >= 2 { CutIsLine(text, 1); }
    var c := text[0];
    kind := if c == ';' || c == '\r' then Comment else if c == '[' then Section else Param;
    var lineLen: nat := 1;
    if |text| == 1 {
      return 2, kind;
    }
    c := text[1];
    while c != '\n' && lineLen < |text| - 1
      invariant 1 <= lineLen < |text| && lineLen < MAX_LINE && c == text[lineLen]
      invariant LineLength(text, 1) == LineLength(text, lineLen)
      decreases |text| - lineLen
    {
      c := text[lineLen + 1];
      lineLen := lineLen + 1;
      if lineLen >= MAX_LINE {
        return 0, Error;
      }
    }
    len := lineLen + 1;
  }

  /** A line as GetScriptLine sees it: at least two characters, at most 512, and a line feed only
      at its end or as its first character. */
  predicate IsLine(l: string, last: bool) {
    && 2 <= |l| <= MAX_LINE
    && (forall i :: 1 <= i < |l| - 1 ==> l[i] != '\n')
    && (!last ==> l[|l| - 1] == '\n')
  }

  predicate AreLines(ls: seq<string>) {
    forall k :: 0 <= k < |ls| ==> IsLine(ls[k], k == |ls| - 1)
  }

  lemma {:induction false} LineIsCut(l: string, rest: string, from: nat)
    requires 1 <= from < |l| && IsLine(l, rest == "")
    ensures LineLength(l + rest, from) == |l|
    decreases |l| - from
  {
    if from + 1 < |l| {
      LineIsCut(l, rest, from + 1);
    }
  }

  /** What LineLength cuts off is a line. */
  lemma {:induction false} CutIsLine(text: string, from: nat)
    requires 1 <= from < |text|
    ensures var n := LineLength(text, from);
            && (forall i :: from <= i < n - 1 ==> text[i] != '\n')
            && (n < |text| ==> text[n - 1] == '\n')
    decreases |text| - from
  {
    if text[from] != '\n' && from + 1 < |text| {
      CutIsLine(text, from + 1);
    }
  }

  /** The lines of a text, if it has such lines. */
  function Lines(text: string): Option<seq<string>>
    decreases |text|
  {
    if text == "" then Some([])
    else if |text| == 1 || LineLength(text, 1) > MAX_LINE then None
    else
      var n := LineLength(text, 1);
      var rest := Lines(text[n..]);
      if rest.None? then None else Some([text[..n]] + rest.value)
  }

  lemma {:induction false} LinesSound(text: string)
    requires Lines(text).Some?
    ensures AreLines(Lines(text).value) && Flatten(Lines(text).value) == text
    decreases |text|
  {
    if text != "" {
      var n := LineLength(text, 1);
      CutIsLine(text, 1);
      LinesSound(text[n..]);
      var ls := Lines(text).value;
      assert ls[0] == text[..n] && ls[1..] == Lines(text[n..]).value;
      forall k | 0 <= k < |ls| ensures IsLine(ls[k], k == |ls| - 1) {
        if k > 0 { assert ls[k] == ls[1..][k - 1]; }
      }
    }
  }

  lemma NotEmpty(ls: seq<string>)
    requires forall k :: 0 <= k < |ls| ==> ls[k] != ""
    ensures Flatten(ls) == "" <==> ls == []
  {
  }

  lemma {:induction false} LinesComplete(ls: seq<string>)
    requires AreLines(ls)
    ensures Lines(Flatten(ls)) == Some(ls)
    decreases |ls|
  {
    if ls != [] {
      var text, rest := Flatten(ls), Flatten(ls[1..]);
      LinesComplete(ls[1..]);
      NotEmpty(ls[1..]);
      LineIsCut(ls[0], rest, 1);
      assert text[..|ls[0]|] == ls[0] && text[|ls[0]|..] == rest;
      assert ls == [ls[0]] + ls[1..];
    }
  }

  /** The outer loop of the parsers. It cuts a text exactly into its lines; it fails if and only if
      the text does not consist of lines of 2 to 512 characters. */
  method CutLines(text: string) returns (ok: bool, cut: seq<string>, kinds: seq<LineType>)
    ensures ok <==> Lines(text).Some?
    ensures ok ==> cut == Lines(text).value
    ensures ok ==> |kinds| == |cut| && forall k :: 0 <= k < |cut| ==> cut[k] != "" && kinds[k] == TypeOf(cut[k][0])
  {
    cut, kinds := [], [];
    var rest := text;
    assert Lines(text).Some? ==> cut + Lines(rest).value == Lines(text).value;
    while |rest| != 0
      invariant Lines(text) == if Lines(rest).None? then None else Some(cut + Lines(rest).value)
      invariant |kinds| == |cut| && forall k :: 0 <= k < |cut| ==> cut[k] != "" && kinds[k] == TypeOf(cut[k][0])
      decreases |rest|
    {
      var len, kind := GetScriptLine(rest);
      if kind == Error || len > |rest| {
        return false, cut, kinds;
      }
      NextLine(rest, len, cut);
      cut, kinds := cut + [rest[..len]], kinds + [kind];
      rest := rest[len..];
    }
    ok := true;
  }

  lemma NextLine(rest: string, len: nat, cut: seq<string>)
    requires |rest| >= 2 && len == LineLength(rest, 1) <= MAX_LINE
    ensures Lines(rest).None? <==> Lines(rest[len..]).None?
    ensures Lines(rest).Some? ==> cut + Lines(rest).value == (cut + [rest[..len]]) + Lines(rest[len..]).value
  {
  }

  /** A text has lines of 2 to 512 characters exactly if the parsers cut it, and into these. */
  lemma LinesAreUnique(text: string, ls: seq<string>)
    ensures AreLines(ls) && Flatten(ls) == text <==> Lines(text) == Some(ls)
  {
    if AreLines(ls) { LinesComplete(ls); }
    if Lines(text).Some? { LinesSound(text); }
  }

  // ----- parameter lines

  predicate IsBlank(c: char) {
    c == ' ' || c == '\t'
  }

  /** `s` without blanks. */
  function Strip(s: string): (r: string)
    ensures |r| <= |s|
  {
    if s == "" then ""
    else Strip(s[..|s| - 1]) + (if IsBlank(s[|s| - 1]) then "" else [s[|s| - 1]])
  }

  lemma StripNext(s: string, from: nat, i: nat)
    requires from <= i < |s|
    ensures Strip(s[from..i + 1]) == Strip(s[from..i]) + (if IsBlank(s[i]) then "" else [s[i]])
  {
    assert s[from..i + 1][..i - from] == s[from..i];
  }

  lemma {:induction false} StripGrows(s: string, n: nat)
    requires n <= |s|
    ensures Strip(s[..n]) <= Strip(s)
    decreases |s|
  {
    if n < |s| {
      StripGrows(s[..|s| - 1], n);
      assert s[..|s| - 1][..n] == s[..n];
    } else {
      assert s[..n] == s;
    }
  }

  /** A C string ends at the first NUL. */
  function CString(s: string): (r: string)
    ensures forall k :: 0 <= k < |r| ==> r[k] != NUL
  {
    s[..FirstFrom(s, 0, NUL)]
  }

  function Capped(s: string, n: nat): string {
    if |s| <= n then s else s[..n]
  }

  /** What GetParam makes of a line: name and value without blanks, a value that is too long, or
      nothing, where '=' or the carriage return is missing and it reads behind the text. */
  datatype Assignment = Assigned(name: string, value: string) | TooLong | RunsOff

  /** GetParam looks for both characters in the rest of the text, not only in the line. */
  function AssignmentOf(rest: string): Assignment {
    var eq := FirstFrom(rest, 0, '=');
    if eq == |rest| then RunsOff
    else
      var cr := FirstFrom(rest, eq + 1, '\r');
      var value := Strip(rest[eq + 1..cr]);
      if |value| >= 127 then TooLong
      else if cr == |rest| then RunsOff
      else Assigned(CString(Capped(Strip(rest[0..eq]), 31)), CString(value))
  }

  /** The index of the first `c` from `from` on, or the length. */
  function FirstFrom(s: string, from: nat, c: char): (n: nat)
    requires from <= |s|
    ensures from <= n <= |s| && (n < |s| ==> s[n] == c) && forall k :: from <= k < n ==> s[k] != c
    decreases |s| - from
  {
    if from == |s| || s[from] == c then from else FirstFrom(s, from + 1, c)
  }

  /** Stripping drops blanks and tabs, wherever they stand, */
  lemma {:induction false} StripDrops(s: string)
    requires forall i :: 0 <= i < |s| ==> s[i] == ' ' || s[i] == '\t'
    ensures Strip(s) == ""
  {
    if s != "" { StripDrops(s[..|s| - 1]); }
  }

  /** ... nothing else, */
  lemma {:induction false} StripKeeps(s: string)
    requires forall i :: 0 <= i < |s| ==> s[i] != ' ' && s[i] != '\t'
    ensures Strip(s) == s
  {
    if s != "" { StripKeeps(s[..|s| - 1]); }
  }

  /** ... and keeps the order. */
  lemma {:induction false} StripJoins(a: string, b: string)
    ensures Strip(a + b) == Strip(a) + Strip(b)
    decreases |b|
  {
    if b == "" {
      assert a + b == a;
    } else {
      StripJoins(a, b[..|b| - 1]);
      assert (a + b)[..|a + b| - 1] == a + b[..|b| - 1];
    }
  }

  /** A line with an equals sign and, behind it, a carriage return: the name is what stands before, the
      value what stands between them, without blanks. */
  lemma ParamOfLine(left: string, right: string, tail: string)
    requires '=' !in left && '\r' !in right
    ensures AssignmentOf(left + "=" + right + "\r" + tail) ==
      if |Strip(right)| >= 127 then TooLong
      else Assigned(CString(if |Strip(left)| <= 31 then Strip(left) else Strip(left)[..31]), CString(Strip(right)))
  {
    hide Strip, CString, FirstFrom;
    var text, eq := left + "=" + right + "\r" + tail, |left|;
    Parts(left, "=", right + "\r" + tail, text);
    Parts(left + "=" + right, "\r", tail, text);
    FirstIs(text, 0, '=', eq, left);
    FirstIs(text, eq + 1, '\r', eq + 1 + |right|, right);
  }

  lemma Parts(front: string, c: string, tail: string, text: string)
    requires |c| == 1 && text == front + c + tail
    ensures |front| < |text| && text[|front|] == c[0] && text[..|front|] == front
  {
  }

  lemma FirstIs(text: string, from: nat, c: char, n: nat, part: string)
    requires from <= n < |text| && text[n] == c && part == text[from..n] && c !in part
    ensures FirstFrom(text, from, c) == n
  {
    hide FirstFrom;
    assert forall k :: from <= k < n ==> text[k] == part[k - from];
  }

  /** GetParam */
  method GetParam(rest: string) returns (r: Assignment)
    ensures r == AssignmentOf(rest)
  {
    hide Strip, FirstFrom, CString;
    var name, eq := ReadName(rest);
    if eq == |rest| {
      return RunsOff;
    }
    var value, cr, tooLong := ReadValue(rest, eq + 1);
    if tooLong {
      return TooLong;
    }
    if cr == |rest| {
      return RunsOff;
    }
    return Assigned(CString(name), CString(value));
  }

  /** The loops up to the '='. Only the first 31 characters make up the name. */
  method ReadName(rest: string) returns (name: string, eq: nat)
    ensures eq == FirstFrom(rest, 0, '=') && name == Capped(Strip(rest[0..eq]), 31)
  {
    hide Strip, FirstFrom;
    NothingStripped(rest, 0);
    name, eq := "", 0;
    while eq < |rest| && rest[eq] != '='
      invariant eq <= |rest| && name == Strip(rest[0..eq]) && |name| < 31
      invariant forall k :: 0 <= k < eq ==> rest[k] != '='
    {
      StripNext(rest, 0, eq);
      if rest[eq] != ' ' && rest[eq] != '\t' {
        name := name + [rest[eq]];
      }
      eq := eq + 1;
      if |name| >= 31 {
        break;
      }
    }

    ghost var read := eq;
    while eq < |rest| && rest[eq] != '='
      invariant read <= eq <= |rest| && name == Strip(rest[0..read]) && |name| <= 31
      invariant |name| < 31 ==> eq == read
      invariant forall k :: 0 <= k < eq ==> rest[k] != '='
    {
      eq := eq + 1;
    }
    StripLonger(rest, 0, read, eq);
  }

  /** The loop behind the '='. */
  method ReadValue(rest: string, from: nat) returns (value: string, at: nat, tooLong: bool)
    requires from <= |rest|
    ensures tooLong == (|Strip(rest[from..FirstFrom(rest, from, '\r')])| >= 127)
    ensures !tooLong ==> at == FirstFrom(rest, from, '\r') && value == Strip(rest[from..at])
  {
    hide Strip, FirstFrom;
    NothingStripped(rest, from);
    value, at := "", from;
    while at < |rest| && rest[at] != '\r'
      invariant from <= at <= |rest| && value == Strip(rest[from..at]) && |value| < 127
      invariant forall k :: from <= k < at ==> rest[k] != '\r'
    {
      StripNext(rest, from, at);
      if rest[at] != ' ' && rest[at] != '\t' {
        value := value + [rest[at]];
      }
      at := at + 1;
      if |value| >= 127 {
        StripLonger(rest, from, at, FirstFrom(rest, from, '\r'));
        return value, at, true;
      }
    }
    tooLong := false;
  }

  lemma NothingStripped(s: string, i: nat)
    requires i <= |s|
    ensures Strip(s[i..i]) == ""
  {
  }

  lemma StripLonger(s: string, from: nat, i: nat, j: nat)
    requires from <= i <= j <= |s|
    ensures Strip(s[from..i]) <= Strip(s[from..j])
  {
    StripGrows(s[from..j], i - from);
    assert s[from..j][..i - from] == s[from..i];
  }
}
