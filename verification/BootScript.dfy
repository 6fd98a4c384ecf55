/**
 `boot-axf/script.c`: the segment sections of an INI text. The base address of a segment may be
 given relative to the end of memory and to its own size, in any order of the lines.
 */
module BootScript {
  import opened BinaryArithmetic
  import opened NumberText
  import opened Options
  import opened ScriptLines
  import opened Sequences

  // ----- a segment section

  /** maxSize and baseAddr of the segment, adjustBaseAddr, and the signs of the last number that
      was parsed, which stay in place while texts are parsed. */
  datatype Segment = Segment(maxSize: word, baseAddr: word, adjust: bool, sign: int, tail: int)

  /** A parameter line of a segment section. */
  datatype Line = Size(p: Param) | Base(p: Param) | Other(p: Param)

  function Minus(a: word, b: word): word {
    (a - b) % 0x1_0000_0000
  }

  /** Addresses with a leading sign count down from the end of memory. */
  function Absolute(value: word, sign: int, memoryEnd: word): word {
    if sign < 0 then Minus(memoryEnd, value) else value
  }

  function ValueOf(p: Param): word {
    match p
    case Number(value, _, _) => value
    case Text(words) => words % 0x1_0000_0000
    case Invalid => 0
  }

  function Noted(s: Segment, p: Param): Segment {
    if p.Number? then s.(sign := p.sign, tail := p.tail) else s
  }

  /** What a parameter line of a segment section does. */
  function Apply(s: Segment, l: Line, memoryEnd: word): Segment {
    var t, v := Noted(s, l.p), ValueOf(l.p);
    match l
    case Size(_) => t.(maxSize := v, baseAddr := if t.adjust then Minus(t.baseAddr, v) else t.baseAddr, adjust := false)
    case Base(_) =>
      var a := Absolute(v, t.sign, memoryEnd);
      if t.tail < 0 && t.maxSize == 0 then t.(baseAddr := a, adjust := true)
      else t.(baseAddr := if t.tail < 0 then Minus(a, t.maxSize) else a)
    case Other(_) => t
  }

  /** All lines up to the first value that cannot be parsed. */
  function ApplyAll(s: Segment, ls: seq<Line>, memoryEnd: word): Segment
    decreases |ls|
  {
    if ls == [] || ls[0].p.Invalid? then s else ApplyAll(Apply(s, ls[0], memoryEnd), ls[1..], memoryEnd)
  }

  function NamedLine(name: string, p: Param): Line {
    if name == "img_size" then Size(p) else if name == "img_base" then Base(p) else Other(p)
  }

  // ----- the text of a section

  /** How the lines of a section end: with the text, at the next section, at a line that cannot be
      parsed, or with a read behind the text. */
  datatype Outcome = Ended | NextSection | Failed | RanOff

  /** What parser_script_os_img makes of the lines of a segment section. */
  function ParseFrom(text: string, s: Segment, memoryEnd: word): (Outcome, Segment)
    decreases |text|
  {
    if text == "" then (Ended, s)
    else if TypeOf(text[0]) == Section then
      (if |text| >= 2 && LineLength(text, 1) > MAX_LINE then Failed else NextSection, s)
    else if |text| == 1 then (RanOff, s)
    else if LineLength(text, 1) > MAX_LINE then (Failed, s)
    else
      var rest := text[LineLength(text, 1)..];
      if TypeOf(text[0]) == Comment then ParseFrom(rest, s, memoryEnd)
      else
        match AssignmentOf(text)
        case RunsOff => (RanOff, s)
        case TooLong => (Failed, s)
        case Assigned(name, value) =>
          if ParamOf(value).Invalid? then (Failed, s)
          else ParseFrom(rest, Apply(s, NamedLine(name, ParamOf(value)), memoryEnd), memoryEnd)
  }

  /** The main loop of parser_script_os_img in a [segment] section. */
  method ParseSection(text: string, start: Segment, memoryEnd: word) returns (outcome: Outcome, s: Segment)
    ensures (outcome, s) == ParseFrom(text, start, memoryEnd)
  {
    hide Apply, AssignmentOf, ParamOf, LineLength;
    s := start;
    var rest := text;
    while |rest| != 0
      invariant ParseFrom(rest, s, memoryEnd) == ParseFrom(text, start, memoryEnd)
      decreases |rest|
    {
      var len, kind := GetScriptLine(rest);
      if kind == Error {
        return Failed, s;
      }
      if kind == Section {
        return NextSection, s;
      }
      if len > |rest| {
        return RanOff, s;
      }
      if kind == LineType.Param {
        var failure;
        failure, s := ParseAssignment(rest, s, memoryEnd);
        if failure.Some? {
          return failure.value, s;
        }
      }
      rest := rest[len..];
    }
    outcome := Ended;
  }

  /** The case of a parameter line. */
  method ParseAssignment(rest: string, before: Segment, memoryEnd: word) returns (failure: Option<Outcome>, s: Segment)
    ensures match AssignmentOf(rest)
            case RunsOff => failure == Some(RanOff) && s == before
            case TooLong => failure == Some(Failed) && s == before
            case Assigned(name, value) =>
              if ParamOf(value).Invalid? then failure == Some(Failed) && s == before
              else failure == None && s == Apply(before, NamedLine(name, ParamOf(value)), memoryEnd)
  {
    hide Apply, ParamOf, NamedLine;
    s := before;
    var r := GetParam(rest);
    match r {
      case RunsOff =>
        failure := Some(RanOff);
      case TooLong =>
        failure := Some(Failed);
      case Assigned(name, value) =>
        AssignedStrings(rest);
        var p := ParseParamVal(value);
        if p.Invalid? {
          failure := Some(Failed);
        } else {
          s := ParseLine(s, name, p, memoryEnd);
          failure := None;
        }
    }
  }

  lemma AssignedStrings(rest: string)
    ensures AssignmentOf(rest).Assigned? ==>
      forall k :: 0 <= k < |AssignmentOf(rest).value| ==> AssignmentOf(rest).value[k] != NUL
  {
    hide Strip, FirstFrom;
  }

  /** One parameter, parsed into value and signs. */
  method ParseLine(before: Segment, name: string, p: Param, memoryEnd: word) returns (s: Segment)
    requires !p.Invalid?
    ensures s == Apply(before, NamedLine(name, p), memoryEnd)
  {
    s := before;
    var value: word;
    match p {
      case Number(v, sign, tail) =>
        value := v;
        s := s.(sign := sign, tail := tail);
      case Text(words) =>
        value := words % 0x1_0000_0000;
    }
    if name == "img_size" {
      s := s.(maxSize := value);
      if s.adjust {
        s := s.(baseAddr := (s.baseAddr - value) % 0x1_0000_0000, adjust := false);
      }
    } else if name == "img_base" {
      if s.sign < 0 {
        value := (memoryEnd - value) % 0x1_0000_0000;
      }
      if s.tail < 0 {
        if s.maxSize == 0 {
          s := s.(adjust := true);
        } else {
          value := (value - s.maxSize) % 0x1_0000_0000;
        }
      }
      s := s.(baseAddr := value);
    }
  }

  lemma {:induction false} ApplySplit(s: Segment, a: seq<Line>, b: seq<Line>, memoryEnd: word)
    requires AllValid(a)
    ensures ApplyAll(s, a + b, memoryEnd) == ApplyAll(ApplyAll(s, a, memoryEnd), b, memoryEnd)
    decreases |a|
  {
    hide Apply;
    if a == [] {
      assert a + b == b;
    } else {
      assert (a + b)[0] == a[0] && (a + b)[1..] == a[1..] + b;
      ApplySplit(Apply(s, a[0], memoryEnd), a[1..], b, memoryEnd);
    }
  }

  predicate AllValid(ls: seq<Line>) {
    forall i :: 0 <= i < |ls| ==> !ls[i].p.Invalid?
  }

  predicate AllOther(ls: seq<Line>) {
    forall i :: 0 <= i < |ls| ==> ls[i].Other? && !ls[i].p.Invalid?
  }

  /** `s` and `t` differ at most in the signs noted. */
  predicate SameSegment(s: Segment, t: Segment) {
    s.maxSize == t.maxSize && s.baseAddr == t.baseAddr && s.adjust == t.adjust
  }

  lemma {:induction false} OthersDoNothing(s: Segment, ls: seq<Line>, memoryEnd: word)
    requires AllOther(ls)
    ensures SameSegment(ApplyAll(s, ls, memoryEnd), s)
    decreases |ls|
  {
    if ls != [] { OthersDoNothing(Apply(s, ls[0], memoryEnd), ls[1..], memoryEnd); }
  }

  lemma OneLine(s: Segment, l: Line, memoryEnd: word)
    requires !l.p.Invalid?
    ensures ApplyAll(s, [l], memoryEnd) == Apply(s, l, memoryEnd)
  {
    hide Apply;
    assert ApplyAll(Apply(s, l, memoryEnd), [l][1..], memoryEnd) == Apply(s, l, memoryEnd);
  }

  // ----- the order of the lines

  /** The signs noted after some lines. */
  function NotedAll(s: Segment, ls: seq<Line>): Segment
    decreases |ls|
  {
    if ls == [] then s else NotedAll(Noted(s, ls[0].p), ls[1..])
  }

  lemma {:induction false} SignsNoted(s: Segment, t: Segment, ls: seq<Line>, memoryEnd: word)
    requires AllValid(ls) && s.sign == t.sign && s.tail == t.tail
    ensures ApplyAll(s, ls, memoryEnd).sign == NotedAll(t, ls).sign
    ensures ApplyAll(s, ls, memoryEnd).tail == NotedAll(t, ls).tail
    decreases |ls|
  {
    if ls != [] { SignsNoted(Apply(s, ls[0], memoryEnd), Noted(t, ls[0].p), ls[1..], memoryEnd); }
  }

  /** The base address that comes out, if the base line is parsed with the signs of `n` noted. */
  function Address(n: Segment, size: Param, base: Param, memoryEnd: word): word {
    var t := Noted(n, base);
    Minus(Absolute(ValueOf(base), t.sign, memoryEnd), if t.tail < 0 then ValueOf(size) else 0)
  }

  /** In a section with one size line and one base line, and other lines between, before and behind
      them, the base address differs in the two orders at most by the signs noted before it. */
  lemma BothOrders(start: Segment, a: seq<Line>, b: seq<Line>, c: seq<Line>, size: Param, base: Param, memoryEnd: word)
    requires start.maxSize == 0 && !start.adjust && !size.Invalid? && !base.Invalid?
    requires AllOther(a) && AllOther(b) && AllOther(c)
    ensures ApplyAll(start, a + [Size(size)] + b + [Base(base)] + c, memoryEnd).baseAddr
         == Address(NotedAll(start, a + [Size(size)] + b), size, base, memoryEnd)
    ensures ApplyAll(start, a + [Base(base)] + b + [Size(size)] + c, memoryEnd).baseAddr
         == Address(NotedAll(start, a), size, base, memoryEnd)
    ensures ApplyAll(start, a + [Size(size)] + b + [Base(base)] + c, memoryEnd).maxSize == ValueOf(size)
    ensures ApplyAll(start, a + [Base(base)] + b + [Size(size)] + c, memoryEnd).maxSize == ValueOf(size)
  {
    SizeFirst(start, a, b, c, size, base, memoryEnd);
    BaseFirst(start, a, b, c, size, base, memoryEnd);
  }

  lemma SizeFirst(start: Segment, a: seq<Line>, b: seq<Line>, c: seq<Line>, size: Param, base: Param, memoryEnd: word)
    requires start.maxSize == 0 && !start.adjust && !size.Invalid? && !base.Invalid?
    requires AllOther(a) && AllOther(b) && AllOther(c)
    ensures ApplyAll(start, a + [Size(size)] + b + [Base(base)] + c, memoryEnd).baseAddr
         == Address(NotedAll(start, a + [Size(size)] + b), size, base, memoryEnd)
    ensures ApplyAll(start, a + [Size(size)] + b + [Base(base)] + c, memoryEnd).maxSize == ValueOf(size)
  {
    hide Apply, ApplyAll, NotedAll;
    var front := a + [Size(size)] + b;
    ApplySplit(start, front + [Base(base)], c, memoryEnd);
    ApplySplit(start, front, [Base(base)], memoryEnd);
    ApplySplit(start, a + [Size(size)], b, memoryEnd);
    ApplySplit(start, a, [Size(size)], memoryEnd);
    var s1 := ApplyAll(start, a, memoryEnd);
    OthersDoNothing(start, a, memoryEnd);
    OneLine(s1, Size(size), memoryEnd);
    var s2 := Apply(s1, Size(size), memoryEnd);
    var s3 := ApplyAll(s2, b, memoryEnd);
    OthersDoNothing(s2, b, memoryEnd);
    SignsNoted(start, start, front, memoryEnd);
    OneLine(s3, Base(base), memoryEnd);
    OthersDoNothing(Apply(s3, Base(base), memoryEnd), c, memoryEnd);
    SizeThenBase(s1, s3, NotedAll(start, front), size, base, memoryEnd);
  }

  lemma SizeThenBase(s1: Segment, s3: Segment, n: Segment, size: Param, base: Param, memoryEnd: word)
    requires s1.maxSize == 0 && !s1.adjust && SameSegment(s3, Apply(s1, Size(size), memoryEnd))
    requires s3.sign == n.sign && s3.tail == n.tail
    ensures Apply(s3, Base(base), memoryEnd).baseAddr == Address(n, size, base, memoryEnd)
    ensures Apply(s3, Base(base), memoryEnd).maxSize == ValueOf(size)
  {
  }

  lemma BaseFirst(start: Segment, a: seq<Line>, b: seq<Line>, c: seq<Line>, size: Param, base: Param, memoryEnd: word)
    requires start.maxSize == 0 && !start.adjust && !size.Invalid? && !base.Invalid?
    requires AllOther(a) && AllOther(b) && AllOther(c)
    ensures ApplyAll(start, a + [Base(base)] + b + [Size(size)] + c, memoryEnd).baseAddr
         == Address(NotedAll(start, a), size, base, memoryEnd)
    ensures ApplyAll(start, a + [Base(base)] + b + [Size(size)] + c, memoryEnd).maxSize == ValueOf(size)
  {
    hide Apply, ApplyAll, NotedAll;
    var front := a + [Base(base)] + b;
    ApplySplit(start, front + [Size(size)], c, memoryEnd);
    ApplySplit(start, front, [Size(size)], memoryEnd);
    ApplySplit(start, a + [Base(base)], b, memoryEnd);
    ApplySplit(start, a, [Base(base)], memoryEnd);
    var s1 := ApplyAll(start, a, memoryEnd);
    OthersDoNothing(start, a, memoryEnd);
    SignsNoted(start, start, a, memoryEnd);
    OneLine(s1, Base(base), memoryEnd);
    var s2 := Apply(s1, Base(base), memoryEnd);
    var s3 := ApplyAll(s2, b, memoryEnd);
    OthersDoNothing(s2, b, memoryEnd);
    OneLine(s3, Size(size), memoryEnd);
    OthersDoNothing(Apply(s3, Size(size), memoryEnd), c, memoryEnd);
    BaseThenSize(s1, s3, NotedAll(start, a), size, base, memoryEnd);
  }

  lemma BaseThenSize(s1: Segment, s3: Segment, n: Segment, size: Param, base: Param, memoryEnd: word)
    requires s1.maxSize == 0 && !s1.adjust && SameSegment(s3, Apply(s1, Base(base), memoryEnd))
    requires s1.sign == n.sign && s1.tail == n.tail
    ensures Apply(s3, Size(size), memoryEnd).baseAddr == Address(n, size, base, memoryEnd)
    ensures Apply(s3, Size(size), memoryEnd).maxSize == ValueOf(size)
  {
  }

  /** The two orders give the same base address, wherever memory ends. */
  ghost predicate OrderDoesNotMatter(start: Segment, a: seq<Line>, b: seq<Line>, c: seq<Line>, size: Param,
      base: Param) {
    forall memoryEnd: word ::
      ApplyAll(start, a + [Size(size)] + b + [Base(base)] + c, memoryEnd).baseAddr
      == ApplyAll(start, a + [Base(base)] + b + [Size(size)] + c, memoryEnd).baseAddr
  }

  /** The signs in place at the base line are alike in both orders, as far as they matter. */
  predicate SignsAgree(start: Segment, a: seq<Line>, b: seq<Line>, size: Param, base: Param) {
    var n, m := Noted(NotedAll(start, a + [Size(size)] + b), base), Noted(NotedAll(start, a), base);
    (n.sign < 0 <==> m.sign < 0) && ((n.tail < 0 <==> m.tail < 0) || ValueOf(size) == 0)
  }

  /** The order does not matter exactly if the signs agree, and so for every address that is a
      number and brings signs of its own. */
  lemma BaseIndependentOfOrder(start: Segment, a: seq<Line>, b: seq<Line>, c: seq<Line>, size: Param, base: Param)
    requires start.maxSize == 0 && !start.adjust && !size.Invalid? && !base.Invalid?
    requires AllOther(a) && AllOther(b) && AllOther(c)
    ensures OrderDoesNotMatter(start, a, b, c, size, base) <==> SignsAgree(start, a, b, size, base)
    ensures base.Number? ==> SignsAgree(start, a, b, size, base)
  {
    hide ApplyAll, NotedAll;
    var n, m := NotedAll(start, a + [Size(size)] + b), NotedAll(start, a);
    forall memoryEnd: word
      ensures ApplyAll(start, a + [Size(size)] + b + [Base(base)] + c, memoryEnd).baseAddr
           == Address(n, size, base, memoryEnd)
      ensures ApplyAll(start, a + [Base(base)] + b + [Size(size)] + c, memoryEnd).baseAddr
           == Address(m, size, base, memoryEnd)
    {
      BothOrders(start, a, b, c, size, base, memoryEnd);
    }
    AddressesAgree(n, m, size, base);
  }

  lemma AddressesAgree(n: Segment, m: Segment, size: Param, base: Param)
    ensures var x, y := Noted(n, base), Noted(m, base);
            (forall memoryEnd: word :: Address(n, size, base, memoryEnd) == Address(m, size, base, memoryEnd))
            <==> (x.sign < 0 <==> y.sign < 0) && ((x.tail < 0 <==> y.tail < 0) || ValueOf(size) == 0)
  {
    hide Noted, ValueOf, Minus;
    var x, y, v, w := Noted(n, base), Noted(m, base), ValueOf(base), ValueOf(size);
    MinusNothing(v);
    if (x.sign < 0) != (y.sign < 0) {
      EndMatters(v, if x.sign < 0 then (if x.tail < 0 then w else 0) else if y.tail < 0 then w else 0);
      assert Address(n, size, base, 0) != Address(m, size, base, 0)
          || Address(n, size, base, 1) != Address(m, size, base, 1);
    } else if (x.tail < 0) != (y.tail < 0) {
      SizeMatters(if x.sign < 0 then Minus(0, v) else v, w);
      if w != 0 { assert Address(n, size, base, 0) != Address(m, size, base, 0); }
      forall memoryEnd: word { SizeMatters(if x.sign < 0 then Minus(memoryEnd, v) else v, w); }
    }
  }

  lemma MinusNothing(v: word)
    ensures Minus(v, 0) == v
  {
  }

  lemma EndMatters(v: word, t: word)
    ensures Minus(Minus(0, v), t) != Minus(Minus(1, v), t)
  {
    MinusIs(0, v);
    MinusIs(1, v);
    MinusIs(Minus(0, v), t);
    MinusIs(Minus(1, v), t);
    hide Minus;
  }

  lemma SizeMatters(a: word, w: word)
    ensures Minus(a, w) == Minus(a, 0) <==> w == 0
  {
    MinusIs(a, w);
    MinusIs(a, 0);
  }

  lemma MinusIs(a: word, b: word)
    ensures Minus(a, b) == if a >= b then a - b else a - b + 0x1_0000_0000
  {
  }

  /** An address that is no number is taken by its size in words, with the signs of whatever number
      was parsed last: here the order of the lines matters. */
  lemma TextBaseDependsOnOrder()
    ensures var size, base := ParamOf("-8"), ParamOf("top");
            var start := Segment(0, 0, false, 1, 1);
            && ApplyAll(start, [Size(size), Base(base)], 0x100).baseAddr == 0xff
            && ApplyAll(start, [Base(base), Size(size)], 0x100).baseAddr == 1
  {
    var size, base := ParamOf("-8"), ParamOf("top");
    var start := Segment(0, 0, false, 1, 1);
    assert size == Number(8, -1, 1) && base == Text(1);
    assert [Size(size), Base(base)] == [] + [Size(size)] + [] + [Base(base)] + [];
    assert [Base(base), Size(size)] == [] + [Base(base)] + [] + [Size(size)] + [];
    assert [] + [Size(size)] + [] == [Size(size)];
    BothOrders(start, [], [], [], size, base, 0x100);
  }

  // ----- from text to address

  /** A line of a section: a remark, or a parameter in which blanks may stand anywhere. */
  datatype Entry = Remark(text: string) | Entry(left: string, right: string)

  function TextOf(e: Entry): string {
    match e
    case Remark(text) => text
    case Entry(left, right) => left + "=" + right + "\r\n"
  }

  function TextOfAll(es: seq<Entry>): string {
    if es == [] then "" else TextOf(es[0]) + TextOfAll(es[1..])
  }

  predicate WellFormed(e: Entry) {
    && IsLine(TextOf(e), false)
    && match e
       case Remark(text) => TypeOf(text[0]) == Comment
       case Entry(left, right) =>
         && (left != "" ==> TypeOf(left[0]) == LineType.Param)
         && (forall k :: 0 <= k < |left| ==> left[k] != '=')
         && (forall k :: 0 <= k < |right| ==> right[k] != '\r')
         && |Strip(right)| < 127
  }

  function LinesOf(es: seq<Entry>): seq<Line> {
    if es == [] then [] else LineOf(es[0]) + LinesOf(es[1..])
  }

  function LineOf(e: Entry): seq<Line> {
    match e
    case Remark(_) => []
    case Entry(left, right) => [NamedLine(CString(Capped(Strip(left), 31)), ParamOf(CString(Strip(right))))]
  }

  /** A line that gives a number, character by character: blanks aside, "img_size" or "img_base" and
      the text of the number, of which the digits, the minus in front and the sign behind count. */
  lemma NumberLine(e: Entry, minus: bool, hex: string, digits: string, ds: seq<nat>, rest: string)
    requires e.Entry? && (Strip(e.left) == "img_size" || Strip(e.left) == "img_base") && NUL !in e.right
    requires IsNumber(Strip(e.right), minus, hex, digits, ds, rest) && (rest == "" || rest[0] == '+' || rest[0] == '-')
    ensures var p := Number(InBase(if hex == "" then 10 else 16, ds) % 0x1_0000_0000, if minus then -1 else 1,
                            if rest != "" && rest[0] == '-' then -1 else 1);
            LineOf(e) == [if Strip(e.left) == "img_size" then Size(p) else Base(p)]
  {
    hide ParamOf, InBase, IsNumber;
    NoNul(e.right);
    WholeString(Strip(e.left));
    WholeString(Strip(e.right));
    NumberRead(Strip(e.right), minus, hex, digits, ds, rest);
  }

  lemma {:induction false} NoNul(s: string)
    requires NUL !in s
    ensures NUL !in Strip(s)
  {
    if s != "" { NoNul(s[..|s| - 1]); }
  }

  lemma WholeString(s: string)
    requires NUL !in s
    ensures CString(s) == s
  {
  }

  /** A section's text has the effect of its parameters, one after the other, up to the first that
      cannot be parsed; then `tail` is parsed. */
  lemma {:induction false} TextParsed(es: seq<Entry>, tail: string, s: Segment, memoryEnd: word)
    requires forall i :: 0 <= i < |es| ==> WellFormed(es[i])
    ensures var t := ApplyAll(s, LinesOf(es), memoryEnd);
            ParseFrom(TextOfAll(es) + tail, s, memoryEnd)
            == if AllValid(LinesOf(es)) then ParseFrom(tail, t, memoryEnd) else (Failed, t)
    decreases |es|
  {
    hide Apply, WellFormed, AssignmentOf, ParamOf, Strip, CString, ParseFrom;
    if es == [] {
      assert TextOfAll(es) + tail == tail;
    } else {
      var rest := TextOfAll(es[1..]) + tail;
      assert TextOfAll(es) + tail == TextOf(es[0]) + rest;
      EntryParsed(es[0], rest, s, memoryEnd);
      LinesSplit(es);
      if es[0].Remark? {
        TextParsed(es[1..], tail, s, memoryEnd);
      } else {
        var l := LineOf(es[0])[0];
        if !l.p.Invalid? { TextParsed(es[1..], tail, Apply(s, l, memoryEnd), memoryEnd); }
      }
    }
  }

  /** The first line ends within 512 characters. */
  ghost predicate ShortLine(text: string) {
    |text| <= 512 || exists k :: 1 <= k < 512 && text[k] == '\n'
  }

  /** Where a section ends: with the text, or at the next section. A line of more than 512 characters is
      a failure; a last line of one character, or a parameter without an equals sign, makes the parser
      read behind the text. */
  lemma SectionEnds(tail: string, s: Segment, memoryEnd: word)
    ensures tail == "" ==> ParseFrom(tail, s, memoryEnd) == (Ended, s)
    ensures tail != "" && tail[0] == '[' && ShortLine(tail) ==> ParseFrom(tail, s, memoryEnd) == (NextSection, s)
    ensures !ShortLine(tail) ==> ParseFrom(tail, s, memoryEnd) == (Failed, s)
    ensures |tail| == 1 && tail[0] != '[' ==> ParseFrom(tail, s, memoryEnd) == (RanOff, s)
    ensures |tail| > 1 && ShortLine(tail) && tail[0] !in [';', '\r', '['] && '=' !in tail ==>
      ParseFrom(tail, s, memoryEnd) == (RanOff, s)
  {
    hide Apply, Strip, CString, ParamOf, LineLength;
    if |tail| > 1 { CutIsLine(tail, 1); }
  }

  lemma LinesSplit(es: seq<Entry>)
    requires es != []
    ensures es[0].Remark? ==> LinesOf(es) == LinesOf(es[1..])
    ensures es[0].Entry? ==>
      LinesOf(es) != [] && LinesOf(es)[0] == LineOf(es[0])[0] && LinesOf(es)[1..] == LinesOf(es[1..])
    ensures es[0].Entry? ==> (AllValid(LinesOf(es)) <==> !LinesOf(es)[0].p.Invalid? && AllValid(LinesOf(es[1..])))
  {
    hide ParamOf, Strip, CString;
    var rest := LinesOf(es[1..]);
    if es[0].Entry? {
      var ls := LinesOf(es);
      assert ls == [ls[0]] + rest;
      assert AllValid(ls) ==> forall i :: 0 <= i < |rest| ==> rest[i] == ls[i + 1];
      if !ls[0].p.Invalid? && AllValid(rest) {
        forall i | 0 <= i < |ls| ensures !ls[i].p.Invalid? { if i > 0 { assert ls[i] == rest[i - 1]; } }
      }
    }
  }

  lemma EntryParsed(e: Entry, rest: string, s: Segment, memoryEnd: word)
    requires WellFormed(e)
    ensures var text := TextOf(e) + rest;
            ParseFrom(text, s, memoryEnd)
            == if e.Remark? then ParseFrom(rest, s, memoryEnd)
               else
                 var l := LineOf(e)[0];
                 if l.p.Invalid? then (Failed, s) else ParseFrom(rest, Apply(s, l, memoryEnd), memoryEnd)
  {
    hide Apply, AssignmentOf, ParamOf, Strip, CString, LineLength;
    var text := TextOf(e) + rest;
    LineIsCut(TextOf(e), rest, 1);
    assert text[|TextOf(e)|..] == rest;
    if e.Entry? {
      EntryAssigned(e, rest);
      assert text[0] == (if e.left == "" then '=' else e.left[0]);
    }
  }

  lemma EntryAssigned(e: Entry, rest: string)
    requires e.Entry? && WellFormed(e)
    ensures AssignmentOf(TextOf(e) + rest) == Assigned(CString(Capped(Strip(e.left), 31)), CString(Strip(e.right)))
  {
    hide Strip, CString, AssignmentOf;
    ParamOfLine(e.left, e.right, "\n" + rest);
    assert TextOf(e) + rest == e.left + "=" + e.right + "\r" + ("\n" + rest);
  }

  lemma {:induction false} LinesConcat(a: seq<Entry>, b: seq<Entry>)
    ensures LinesOf(a + b) == LinesOf(a) + LinesOf(b)
    decreases |a|
  {
    hide LineOf;
    if a == [] {
      assert a + b == b;
    } else {
      assert (a + b)[0] == a[0] && (a + b)[1..] == a[1..] + b;
      LinesConcat(a[1..], b);
    }
  }

  /** The whole parser: in the text of a section with one size and one base line, whose address is a
      number, the base address does not depend on their order, nor on remarks, blanks and other
      parameters around them, nor on what was parsed before. */
  lemma BaseAddressOfText(start: Segment, a: seq<Entry>, size: Entry, b: seq<Entry>, base: Entry, c: seq<Entry>,
      memoryEnd: word)
    requires start.maxSize == 0 && !start.adjust
    requires forall i :: 0 <= i < |a + [size] + b + [base] + c| ==> WellFormed((a + [size] + b + [base] + c)[i])
    requires AllOther(LinesOf(a)) && AllOther(LinesOf(b)) && AllOther(LinesOf(c))
    requires size.Entry? && LineOf(size)[0].Size? && !LineOf(size)[0].p.Invalid?
    requires base.Entry? && LineOf(base)[0].Base? && LineOf(base)[0].p.Number?
    ensures var p, q := LineOf(size)[0].p, LineOf(base)[0].p;
            var maxSize := if p.Number? then p.value else p.words % 0x1_0000_0000;
            var absolute := if q.sign < 0 then memoryEnd - q.value else q.value;
            var expected := (absolute - if q.tail < 0 then maxSize else 0) % 0x1_0000_0000;
            var x := ParseFrom(TextOfAll(a + [size] + b + [base] + c), start, memoryEnd);
            var y := ParseFrom(TextOfAll(a + [base] + b + [size] + c), start, memoryEnd);
            && x.0 == Ended && x.1.baseAddr == expected && x.1.maxSize == maxSize
            && y.0 == Ended && y.1.baseAddr == expected && y.1.maxSize == maxSize
  {
    hide WellFormed, ParseFrom, ApplyAll, NotedAll, TextOfAll, LinesOf, ParamOf, Strip, CString, NamedLine, Apply;
    var p, q := LineOf(size)[0].p, LineOf(base)[0].p;
    SameEntries(a, size, b, base, c);
    SectionParsed(start, a, size, b, base, c, memoryEnd);
    SectionParsed(start, a, base, b, size, c, memoryEnd);
    BothOrders(start, LinesOf(a), LinesOf(b), LinesOf(c), p, q, memoryEnd);
  }

  lemma SectionParsed(start: Segment, a: seq<Entry>, x: Entry, b: seq<Entry>, y: Entry, c: seq<Entry>, memoryEnd: word)
    requires forall i :: 0 <= i < |a + [x] + b + [y] + c| ==> WellFormed((a + [x] + b + [y] + c)[i])
    requires AllOther(LinesOf(a)) && AllOther(LinesOf(b)) && AllOther(LinesOf(c)) && x.Entry? && y.Entry?
    requires !LineOf(x)[0].p.Invalid? && !LineOf(y)[0].p.Invalid?
    ensures var ls := LinesOf(a) + [LineOf(x)[0]] + LinesOf(b) + [LineOf(y)[0]] + LinesOf(c);
            ParseFrom(TextOfAll(a + [x] + b + [y] + c), start, memoryEnd) == (Ended, ApplyAll(start, ls, memoryEnd))
  {
    hide WellFormed, ParseFrom, ApplyAll, TextOfAll, LinesOf, ParamOf, Strip, CString, NamedLine;
    InLines(a, x, b, y, c);
    TextParsed(a + [x] + b + [y] + c, "", start, memoryEnd);
    assert TextOfAll(a + [x] + b + [y] + c) + "" == TextOfAll(a + [x] + b + [y] + c);
    SectionEnds("", ApplyAll(start, LinesOf(a + [x] + b + [y] + c), memoryEnd), memoryEnd);
  }

  lemma SameEntries(a: seq<Entry>, x: Entry, b: seq<Entry>, y: Entry, c: seq<Entry>)
    requires forall i :: 0 <= i < |a + [x] + b + [y] + c| ==> WellFormed((a + [x] + b + [y] + c)[i])
    ensures forall i :: 0 <= i < |a + [y] + b + [x] + c| ==> WellFormed((a + [y] + b + [x] + c)[i])
  {
    hide WellFormed;
    var s, t := a + [x] + b + [y] + c, a + [y] + b + [x] + c;
    var m, n := |a|, |a| + 1 + |b|;
    assert s[m] == x && s[n] == y && t[m] == y && t[n] == x;
    forall i | 0 <= i < |t| ensures WellFormed(t[i]) {
      if i != m && i != n { assert t[i] == s[i]; }
    }
  }

  lemma InLines(a: seq<Entry>, x: Entry, b: seq<Entry>, y: Entry, c: seq<Entry>)
    requires x.Entry? && y.Entry?
    ensures LinesOf(a + [x] + b + [y] + c) == LinesOf(a) + [LineOf(x)[0]] + LinesOf(b) + [LineOf(y)[0]] + LinesOf(c)
    ensures var valid := !LineOf(x)[0].p.Invalid? && !LineOf(y)[0].p.Invalid?;
            AllValid(LinesOf(a)) && AllValid(LinesOf(b)) && AllValid(LinesOf(c)) && valid ==>
              AllValid(LinesOf(a + [x] + b + [y] + c))
  {
    hide LinesOf, LineOf;
    LinesConcat(a + [x] + b + [y], c);
    LinesConcat(a + [x] + b, [y]);
    LinesConcat(a + [x], b);
    LinesConcat(a, [x]);
    OneEntry(x);
    OneEntry(y);
  }

  lemma OneEntry(x: Entry)
    requires x.Entry?
    ensures LinesOf([x]) == [LineOf(x)[0]] && |LineOf(x)| == 1
  {
    hide ParamOf, Strip, CString;
    assert LinesOf([x][1..]) == [];
  }
}
