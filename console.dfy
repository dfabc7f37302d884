/** Builders of terminal control codes (ECMA-48 control sequences, section 5.4,
    and Select Graphic Rendition, section 8.3.117) and a coloured +/- bar. */
module Console {
  import opened Results
  import opened Strings

  const ESC: char := '\U{1B}'
  /** The Control Sequence Introducer, ESC followed by `[`. */
  const CSI: string := [ESC, '[']
  /** The markers readline uses to bracket characters that take no room on screen. */
  const START_IGNORE: char := '\U{01}'
  const END_IGNORE: char := '\U{02}'

  // ----- ECMA-48 control sequences -----

  /** Parameter bytes 03/00 to 03/15: digits, `:`, `;`, `<`, `=`, `>`, `?`. */
  predicate IsParam(c: char) {
    '\U{30}' <= c <= '\U{3F}'
  }

  /** Intermediate bytes 02/00 to 02/15. */
  predicate IsInter(c: char) {
    '\U{20}' <= c <= '\U{2F}'
  }

  /** Final bytes 04/00 to 07/14. */
  predicate IsFinal(c: char) {
    '\U{40}' <= c <= '\U{7E}'
  }

  predicate AllParams(s: string) {
    forall i :: 0 <= i < |s| ==> IsParam(s[i])
  }

  predicate AllInters(s: string) {
    forall i :: 0 <= i < |s| ==> IsInter(s[i])
  }

  /** The parts of a control sequence CSI P...P I...I F. */
  datatype ControlSequence = ControlSequence(params: string, intermediates: string, final: char)

  /** The length of the run of parameter bytes that s starts with. */
  function ParamSpan(s: string): (k: nat)
    ensures k <= |s|
    ensures k < |s| ==> !IsParam(s[k])
    decreases |s|
  {
    if s != [] && IsParam(s[0]) then 1 + ParamSpan(s[1..]) else 0
  }

  lemma {:induction false} ParamSpanAll(s: string)
    ensures forall i :: 0 <= i < ParamSpan(s) ==> IsParam(s[i])
    decreases |s|
  {
    if s != [] && IsParam(s[0]) {
      ParamSpanAll(s[1..]);
      assert forall i :: 1 <= i < ParamSpan(s) ==> s[i] == s[1..][i - 1];
    }
  }

  /** The length of the run of intermediate bytes that s starts with. */
  function InterSpan(s: string): (k: nat)
    ensures k <= |s|
    ensures k < |s| ==> !IsInter(s[k])
    decreases |s|
  {
    if s != [] && IsInter(s[0]) then 1 + InterSpan(s[1..]) else 0
  }

  lemma {:induction false} InterSpanAll(s: string)
    ensures forall i :: 0 <= i < InterSpan(s) ==> IsInter(s[i])
    decreases |s|
  {
    if s != [] && IsInter(s[0]) {
      InterSpanAll(s[1..]);
      assert forall i :: 1 <= i < InterSpan(s) ==> s[i] == s[1..][i - 1];
    }
  }

  /** Reads s as exactly one control sequence; None when it is not one. */
  function ParseCsi(s: string): (r: Option<ControlSequence>)
    ensures r.Some? ==> && AllParams(r.value.params) && AllInters(r.value.intermediates) && IsFinal(r.value.final)
                        && s == CSI + r.value.params + r.value.intermediates + [r.value.final]
  {
    if |s| < 2 || s[0] != ESC || s[1] != '[' then None
    else
      var body := s[2..];
      var p := ParamSpan(body);
      var i := p + InterSpan(body[p..]);
      if i + 1 == |body| && IsFinal(body[i]) then
        ParamSpanAll(body);
        InterSpanAll(body[p..]);
        assert AllParams(body[..p]);
        assert forall j :: 0 <= j < i - p ==> body[p..i][j] == body[p..][j];
        assert AllInters(body[p..i]);
        Rebuild(s, p, i);
        Some(ControlSequence(body[..p], body[p..i], body[i]))
      else None
  }

  lemma Rebuild(s: string, p: nat, i: nat)
    requires |s| >= 2 && s[0] == ESC && s[1] == '[' && p <= i && i + 3 == |s|
    ensures s == CSI + s[2..][..p] + s[2..][p..i] + [s[2..][i]]
  {
    var body := s[2..];
    assert s[..2] == CSI;
    assert body == body[..p] + body[p..i] + [body[i]];
    assert s == s[..2] + body;
  }

  /** Every well-formed control sequence is read back into its parts. */
  lemma ParseCsiOf(p: string, m: string, f: char)
    requires AllParams(p) && AllInters(m) && IsFinal(f)
    ensures ParseCsi(CSI + p + m + [f]) == Some(ControlSequence(p, m, f))
  {
    var s := CSI + p + m + [f];
    assert s[0] == ESC && s[1] == '[';
    var body := s[2..];
    assert body == p + (m + [f]);
    ParamSpanOf(p, m + [f]);
    var rest := body[|p|..];
    assert rest == m + [f];
    InterSpanOf(m, [f]);
    var i := |p| + |m|;
    assert body[..|p|] == p;
    assert body[|p|..i] == m;
    assert body[i] == f;
  }

  lemma {:induction false} ParamSpanOf(p: string, rest: string)
    requires AllParams(p) && (rest != [] ==> !IsParam(rest[0]))
    ensures ParamSpan(p + rest) == |p|
    decreases |p|
  {
    if p == [] {
      assert p + rest == rest;
    } else {
      assert (p + rest)[1..] == p[1..] + rest;
      ParamSpanOf(p[1..], rest);
    }
  }

  lemma {:induction false} InterSpanOf(m: string, rest: string)
    requires AllInters(m) && (rest != [] ==> !IsInter(rest[0]))
    ensures InterSpan(m + rest) == |m|
    decreases |m|
  {
    if m == [] {
      assert m + rest == rest;
    } else {
      assert (m + rest)[1..] == m[1..] + rest;
      InterSpanOf(m[1..], rest);
    }
  }

  /** s holds no ESC, so it starts no control sequence. */
  predicate NoEsc(s: string) {
    forall i :: 0 <= i < |s| ==> s[i] != ESC
  }

  /** The text a terminal shows: control sequences take no room. */
  function Visible(s: string): (v: string)
    ensures |v| <= |s|
    decreases |s|
  {
    if s == [] then []
    else if |s| >= 2 && s[0] == ESC && s[1] == '[' then Visible(SkipControl(s[2..]))
    else [s[0]] + Visible(s[1..])
  }

  /** What follows the parameter bytes, intermediate bytes and final byte of a
      control sequence whose introducer has been read. */
  function SkipControl(t: string): (r: string)
    ensures |r| <= |t|
  {
    var p := ParamSpan(t);
    var i := p + InterSpan(t[p..]);
    if i < |t| then t[i + 1..] else []
  }

  lemma VisibleAfterCsi(p: string, f: char, rest: string)
    requires AllParams(p) && IsFinal(f)
    ensures Visible(CSI + p + [f] + rest) == Visible(rest)
  {
    var s := CSI + p + [f] + rest;
    assert s[2..] == p + ([f] + rest);
    ParamSpanOf(p, [f] + rest);
    assert s[2..][|p|..] == [f] + rest;
    InterSpanOf([], [f] + rest);
    assert SkipControl(s[2..]) == rest;
  }

  lemma VisibleCons(c: char, rest: string)
    requires c != ESC
    ensures Visible([c] + rest) == [c] + Visible(rest)
  {
    assert ([c] + rest)[1..] == rest;
  }

  lemma {:induction false} VisiblePlain(t: string, rest: string)
    requires NoEsc(t)
    ensures Visible(t + rest) == t + Visible(rest)
    decreases |t|
  {
    if t == [] {
      assert t + rest == rest;
    } else {
      var c, u := t[0], t[1..];
      assert t == [c] + u;
      assert NoEsc(u);
      calc {
        Visible(t + rest);
        { Assoc([c], u, rest); }
        Visible([c] + (u + rest));
        { VisibleCons(c, u + rest); }
        [c] + Visible(u + rest);
        { VisiblePlain(u, rest); }
        [c] + (u + Visible(rest));
        { Assoc([c], u, Visible(rest)); }
        t + Visible(rest);
      }
    }
  }

  /** Concatenation is associative; stated apart so that proofs about the
      recursive functions below need not rediscover it. */
  lemma Assoc(a: string, b: string, c: string)
    ensures a + (b + c) == a + b + c
  {
  }

  lemma DigitsAreParams(s: string)
    requires AllDigits(s)
    ensures AllParams(s)
  {
  }

  // ----- Building control sequences -----

  /** `csi(n, x)`: the introducer, the number in decimal, then x. */
  function Csi(n: int, x: string): string {
    CSI + IntToStr(n) + x
  }

  /** `csi(n, f)` is a well-formed control sequence when n >= 0 and f is a final
      byte: its one parameter is n in decimal. */
  lemma CsiIsControlSequence(n: int, f: char)
    requires n >= 0 && IsFinal(f)
    ensures ParseCsi(Csi(n, [f])) == Some(ControlSequence(IntToStr(n), "", f))
    ensures Visible(Csi(n, [f])) == []
  {
    DigitsAreParams(IntToStr(n));
    assert Csi(n, [f]) == CSI + IntToStr(n) + "" + [f];
    ParseCsiOf(IntToStr(n), "", f);
    VisibleAfterCsi(IntToStr(n), f, []);
    assert CSI + IntToStr(n) + [f] + [] == Csi(n, [f]);
  }

  function Up(n: int := 1): string { Csi(n, "A") }
  function Down(n: int := 1): string { Csi(n, "B") }
  function Right(n: int := 1): string { Csi(n, "C") }
  function Left(n: int := 1): string { Csi(n, "D") }
  function Next(n: int := 1): string { Csi(n, "E") }
  function Prev(n: int := 1): string { Csi(n, "F") }

  /** The cursor movements are the ECMA-48 functions CUU, CUD, CUF, CUB, CNL and
      CPL with n as their parameter. */
  lemma MovementSequences(n: nat)
    ensures ParseCsi(Up(n)) == Some(ControlSequence(IntToStr(n), "", 'A'))
    ensures ParseCsi(Down(n)) == Some(ControlSequence(IntToStr(n), "", 'B'))
    ensures ParseCsi(Right(n)) == Some(ControlSequence(IntToStr(n), "", 'C'))
    ensures ParseCsi(Left(n)) == Some(ControlSequence(IntToStr(n), "", 'D'))
    ensures ParseCsi(Next(n)) == Some(ControlSequence(IntToStr(n), "", 'E'))
    ensures ParseCsi(Prev(n)) == Some(ControlSequence(IntToStr(n), "", 'F'))
  {
    CsiIsControlSequence(n, 'A');
    CsiIsControlSequence(n, 'B');
    CsiIsControlSequence(n, 'C');
    CsiIsControlSequence(n, 'D');
    CsiIsControlSequence(n, 'E');
    CsiIsControlSequence(n, 'F');
  }

  /** By default each movement is by one cell or line. */
  lemma MovementDefaults()
    ensures Up() == "\U{1B}[1A" && Down() == "\U{1B}[1B" && Right() == "\U{1B}[1C"
    ensures Left() == "\U{1B}[1D" && Next() == "\U{1B}[1E" && Prev() == "\U{1B}[1F"
  {
    assert IntToStr(1) == "1";
  }

  function Bold(): string { Csi(1, "m") }
  /** Also bound to the names `reset` and `normal`. */
  function NoColor(): string { Csi(0, "m") }
  function Underline(): string { Csi(4, "m") }
  function ClearLine(): string { Csi(0, "K") }
  function ClearScreen(): string { Csi(2, "J") }

  /** The fixed codes: SGR 1 (bold), SGR 0 (all attributes off), SGR 4
      (underline), EL 0 (erase to the end of the line), ED 2 (erase the display). */
  lemma FixedSequences()
    ensures Bold() == "\U{1B}[1m" && NoColor() == "\U{1B}[0m" && Underline() == "\U{1B}[4m"
    ensures ClearLine() == "\U{1B}[0K" && ClearScreen() == "\U{1B}[2J"
    ensures ParseCsi(NoColor()) == Some(ControlSequence("0", "", 'm'))
    ensures ParseCsi(ClearScreen()) == Some(ControlSequence("2", "", 'J'))
  {
    CsiIsControlSequence(0, 'm');
    CsiIsControlSequence(2, 'J');
  }

  // ----- Colours -----

  /** The eight colour names and their SGR colour numbers. */
  const COLORS: map<string, int> :=
    map["black" := 0, "red" := 1, "green" := 2, "yellow" := 3, "blue" := 4, "magenta" := 5, "cyan" := 6, "white" := 7]

  /** A colour argument: an integer, or a string (a number or a name). */
  datatype ColorArg = Index(i: int) | Name(s: string)

  /** `int(clr)`, and when that fails, the colour name looked up in the table. */
  function ColorIndex(clr: ColorArg): (r: Result<int>)
    ensures clr.Index? ==> r == Ok(clr.i)
    ensures clr.Name? && PyInt(clr.s).Ok? ==> r == PyInt(clr.s)
    ensures clr.Name? && PyInt(clr.s).Err? ==> r == if clr.s in COLORS then Ok(COLORS[clr.s]) else Err(KeyError)
  {
    match clr
    case Index(i) => Ok(i)
    case Name(s) =>
      match PyInt(s)
      case Ok(i) => Ok(i)
      case Err(_) => if s in COLORS then Ok(COLORS[s]) else Err(KeyError)
  }

  /** The SGR code for colour number i: 30 + i, then `;1` (bold) when asked. */
  function Sgr(i: int, bold: bool): string {
    Csi(30 + i, if bold then ";1m" else "m")
  }

  /** `color(clr, bold)`: the colour code, or KeyError for a name that is
      neither a number nor in the table. */
  function Color(clr: ColorArg, bold: bool := false): (r: Result<string>)
    ensures r.Ok? <==> ColorIndex(clr).Ok?
    ensures r.Ok? ==> r.value == Sgr(ColorIndex(clr).value, bold)
    ensures r.Err? ==> r.error == KeyError
  {
    var i :- ColorIndex(clr);
    Ok(Sgr(i, bold))
  }

  /** SGR 30 + i (then `;1` when bold) is a control sequence whose parameters
      are those numbers, when 30 + i is not negative. */
  lemma SgrIsControlSequence(i: int, bold: bool)
    requires i >= -30
    ensures ParseCsi(Sgr(i, bold)) == Some(ControlSequence(IntToStr(30 + i) + (if bold then ";1" else ""), "", 'm'))
  {
    var n := IntToStr(30 + i);
    DigitsAreParams(n);
    var p := n + (if bold then ";1" else "");
    assert AllParams(p);
    assert Sgr(i, bold) == CSI + p + "" + ['m'] by {
      if bold {
        assert ";1m" == ";1" + ['m'];
        Assoc(CSI + n, ";1", ['m']);
        Assoc(CSI, n, ";1");
      }
    }
    ParseCsiOf(p, "", 'm');
  }

  /** A colour that resolves to a number of at least -30 is an SGR control
      sequence whose parameters are 30 + the number, then `;1` when bold. */
  lemma ColorIsSgr(clr: ColorArg, bold: bool)
    requires ColorIndex(clr).Ok? && ColorIndex(clr).value >= -30
    ensures var p := IntToStr(30 + ColorIndex(clr).value) + (if bold then ";1" else "");
            ParseCsi(Color(clr, bold).value) == Some(ControlSequence(p, "", 'm'))
  {
    SgrIsControlSequence(ColorIndex(clr).value, bold);
  }

  lemma PyIntOfWord(s: string)
    requires s != [] && 'a' <= s[0] <= 'z' && 'a' <= s[|s| - 1] <= 'z'
    ensures PyInt(s).Err?
  {
    assert StripLeft(s) == s;
    assert StripRight(s) == s;
  }

  /** A colour name resolves through the table. */
  lemma ColorOfName(name: string, bold: bool)
    requires name in COLORS
    ensures Color(Name(name), bold) == Ok(Sgr(COLORS[name], bold))
  {
    assert name == "black" || name == "red" || name == "green" || name == "yellow"
        || name == "blue" || name == "magenta" || name == "cyan" || name == "white";
    PyIntOfWord(name);
  }

  /** A name outside the table that begins and ends with a letter is not read
      by `int` either: KeyError. */
  lemma ColorOfUnknownName(name: string, bold: bool)
    requires name !in COLORS
    requires name != [] && 'a' <= name[0] <= 'z' && 'a' <= name[|name| - 1] <= 'z'
    ensures Color(Name(name), bold) == Err(KeyError)
  {
    PyIntOfWord(name);
  }

  /** A numeric string is read by `int` before the table is consulted. */
  lemma ColorOfNumericString(i: int)
    ensures Color(Name(IntToStr(i))) == Color(Index(i)) == Ok(Sgr(i, false))
  {
    PyIntOfIntToStr(i);
  }

  /** `color('red')` is SGR 31. */
  lemma RedIsSgr31(name: string)
    requires name == "red"
    ensures Color(Name(name)) == Ok("\U{1B}[31m")
  {
    ColorOfName(name, false);
    GreenAndRed();
    Sgr31();
  }

  lemma Sgr31()
    ensures Sgr(1, false) == "\U{1B}[31m"
  {
    TwoDigits(31);
    assert Sgr(1, false) == CSI + ['3', '1'] + "m";
  }

  /** The decimal form of a two-digit number. */
  lemma TwoDigits(n: nat)
    requires 10 <= n < 100
    ensures IntToStr(n) == [DigitChar(n / 10), DigitChar(n % 10)]
  {
    assert NatToStr(n / 10) == [DigitChar(n / 10)];
  }

  /** `xcolor(clr)`: SGR 38;5;clr, a colour of the 256-colour palette. */
  function XColor(clr: int): string {
    Csi(38, ";5;" + IntToStr(clr) + "m")
  }

  lemma XColorIsSgr(clr: nat)
    ensures ParseCsi(XColor(clr)) == Some(ControlSequence("38;5;" + IntToStr(clr), "", 'm'))
    ensures Visible(XColor(clr)) == []
  {
    var n := IntToStr(clr);
    var p := "38;5;" + n;
    var x := CSI + p + ['m'];
    DigitsAreParams(n);
    assert XColor(clr) == x by {
      TwoDigits(38);
      assert ";5;" + n + "m" == ";5;" + n + ['m'];
      calc {
        XColor(clr);
        CSI + "38" + (";5;" + n + ['m']);
        { Assoc(CSI + "38", ";5;" + n, ['m']); }
        CSI + "38" + (";5;" + n) + ['m'];
        { Assoc(CSI, "38", ";5;" + n); Assoc("38", ";5;", n); }
        x;
      }
    }
    assert CSI + p + "" + ['m'] == x;
    ParseCsiOf(p, "", 'm');
    assert x + [] == x;
    VisibleAfterCsi(p, 'm', []);
  }

  /** `color_prompt(s, clr)`: s in colour clr, the codes bracketed for readline. */
  function ColorPrompt(s: string, clr: int): string {
    [START_IGNORE] + XColor(clr) + [END_IGNORE] + s + [START_IGNORE] + NoColor() + [END_IGNORE]
  }

  /** The characters readline counts: everything outside START_IGNORE ... END_IGNORE. */
  function ReadlineCounted(s: string): (v: string)
    ensures |v| <= |s|
    decreases |s|
  {
    if s == [] then []
    else if s[0] == START_IGNORE then ReadlineCounted(AfterEndIgnore(s[1..]))
    else [s[0]] + ReadlineCounted(s[1..])
  }

  /** What follows the first END_IGNORE. */
  function AfterEndIgnore(s: string): (r: string)
    ensures |r| <= |s|
    decreases |s|
  {
    if s == [] then [] else if s[0] == END_IGNORE then s[1..] else AfterEndIgnore(s[1..])
  }

  lemma {:induction false} AfterEndIgnoreOf(hidden: string, rest: string)
    requires END_IGNORE !in hidden
    ensures AfterEndIgnore(hidden + [END_IGNORE] + rest) == rest
    decreases |hidden|
  {
    if hidden == [] {
      assert hidden + [END_IGNORE] + rest == [END_IGNORE] + rest;
    } else {
      assert (hidden + [END_IGNORE] + rest)[1..] == hidden[1..] + [END_IGNORE] + rest;
      AfterEndIgnoreOf(hidden[1..], rest);
    }
  }

  lemma ReadlineCons(c: char, rest: string)
    requires c != START_IGNORE
    ensures ReadlineCounted([c] + rest) == [c] + ReadlineCounted(rest)
  {
    assert ([c] + rest)[1..] == rest;
  }

  lemma {:induction false} ReadlineCountsPlain(t: string, rest: string)
    requires START_IGNORE !in t
    ensures ReadlineCounted(t + rest) == t + ReadlineCounted(rest)
    decreases |t|
  {
    if t == [] {
      assert t + rest == rest;
    } else {
      var c, u := t[0], t[1..];
      assert t == [c] + u;
      assert START_IGNORE !in u;
      calc {
        ReadlineCounted(t + rest);
        { Assoc([c], u, rest); }
        ReadlineCounted([c] + (u + rest));
        { ReadlineCons(c, u + rest); }
        [c] + ReadlineCounted(u + rest);
        { ReadlineCountsPlain(u, rest); }
        [c] + (u + ReadlineCounted(rest));
        { Assoc([c], u, ReadlineCounted(rest)); }
        t + ReadlineCounted(rest);
      }
    }
  }

  lemma ReadlineHides(hidden: string, rest: string)
    requires END_IGNORE !in hidden
    ensures ReadlineCounted([START_IGNORE] + hidden + [END_IGNORE] + rest) == ReadlineCounted(rest)
  {
    var s := [START_IGNORE] + hidden + [END_IGNORE] + rest;
    assert s[1..] == hidden + [END_IGNORE] + rest;
    AfterEndIgnoreOf(hidden, rest);
  }

  lemma IntToStrHasNoMarkers(n: int)
    ensures START_IGNORE !in IntToStr(n) && END_IGNORE !in IntToStr(n)
  {
    var d := NatToStr(if n < 0 then -n else n);
    assert forall i :: 0 <= i < |d| ==> IsDigit(d[i]);
  }

  /** Readline counts exactly the prompt text: the colour codes are bracketed
      as taking no room (for a text without START_IGNORE of its own). */
  lemma ColorPromptWidth(s: string, clr: int)
    requires START_IGNORE !in s
    ensures ReadlineCounted(ColorPrompt(s, clr)) == s
  {
    IntToStrHasNoMarkers(clr);
    IntToStrHasNoMarkers(38);
    IntToStrHasNoMarkers(0);
    var x, z := XColor(clr), NoColor();
    assert END_IGNORE !in x && END_IGNORE !in z;
    var tail := [START_IGNORE] + z + [END_IGNORE];
    ReadlineHides(z, []);
    assert tail + [] == tail;
    ReadlineCountsPlain(s, tail);
    ReadlineHides(x, s + tail);
    assert ColorPrompt(s, clr) == [START_IGNORE] + x + [END_IGNORE] + (s + tail);
  }

  // ----- The +/- bar -----

  lemma DivBounds(a: int, b: int)
    requires 0 <= a && 0 < b
    ensures 0 <= a / b && (a / b) * b <= a < (a / b + 1) * b
  {
    assert a == b * (a / b) + a % b;
  }

  /** Python's `int(a / b)` for a true quotient: division truncated toward zero. */
  function TruncDiv(a: int, b: int): (q: int)
    requires b != 0
    ensures (a >= 0) == (b > 0) || a == 0 ==> q >= 0
    ensures (a <= 0) == (b > 0) || a == 0 ==> q <= 0
    ensures b > 0 && a >= 0 ==> q * b <= a < (q + 1) * b
    ensures b > 0 && a <= 0 ==> (q - 1) * b < a <= q * b
    ensures b < 0 && a >= 0 ==> q * b <= a < (q - 1) * b
    ensures b < 0 && a <= 0 ==> (q + 1) * b < a <= q * b
  {
    var m := (if a < 0 then -a else a) / (if b < 0 then -b else b);
    DivBounds(if a < 0 then -a else a, if b < 0 then -b else b);
    NegatedBounds(m, if a < 0 then -a else a, if b < 0 then -b else b);
    if (a < 0) == (b < 0) then m else -m
  }

  /** The bounds of a quotient of magnitudes, restated for either sign of each operand. */
  lemma NegatedBounds(m: int, x: int, y: int)
    requires m * y <= x < (m + 1) * y
    ensures (-m) * (-y) <= x < (-m - 1) * (-y)
    ensures (m + 1) * (-y) < -x <= m * (-y)
    ensures (-m - 1) * y < -x <= (-m) * y
  {
    assert (-m) * (-y) == m * y && (-m - 1) * (-y) == (m + 1) * y;
    assert (m + 1) * (-y) == -((m + 1) * y) && m * (-y) == -(m * y);
    assert (-m - 1) * y == -((m + 1) * y) && (-m) * y == -(m * y);
  }

  /** The numbers of `+` and `-` signs: each count scaled by width / maxt and
      truncated, but never more than the count itself. */
  function BarCounts(plus: int, minus: int, maxt: int, width: int): (c: (int, int))
    requires maxt != 0
    ensures c.0 <= plus && c.1 <= minus
    ensures c.0 <= TruncDiv(width * plus, maxt) && c.1 <= TruncDiv(width * minus, maxt)
    ensures c.0 == plus || c.0 == TruncDiv(width * plus, maxt)
    ensures c.1 == minus || c.1 == TruncDiv(width * minus, maxt)
  {
    (Min(TruncDiv(width * plus, maxt), plus), Min(TruncDiv(width * minus, maxt), minus))
  }

  /** The bar for given counts: green `+` signs, red `-` signs, each run
      followed by the reset code, then the padding. */
  function Bar(pluses: int, minuses: int, pad: string): string {
    Sgr(COLORS["green"], false) + Repeat('+', pluses) + NoColor()
      + Sgr(COLORS["red"], false) + Repeat('-', minuses) + NoColor() + pad
  }

  /** `plusminus(plus, minus, maxt, width, padded)`: the bar of the scaled
      counts, padded with spaces up to the width when asked. A zero maxt
      divides by zero. */
  function PlusMinus(plus: int, minus: int, maxt: int, width: int, padded: bool := false): (r: Result<string>)
    ensures r.Err? <==> maxt == 0
    ensures r.Err? ==> r.error == ZeroDivisionError
  {
    if maxt == 0 then Err(ZeroDivisionError)
    else
      var c := BarCounts(plus, minus, maxt, width);
      Ok(Bar(c.0, c.1, if padded then Repeat(' ', width - (c.0 + c.1)) else ""))
  }

  /** The colours of the bar are the ones `color` gives for `green` and `red`. */
  lemma BarColors()
    ensures Color(Name("green")) == Ok(Sgr(COLORS["green"], false))
    ensures Color(Name("red")) == Ok(Sgr(COLORS["red"], false))
  {
    ColorOfName("green", false);
    ColorOfName("red", false);
  }

  /** The bar is `color('green')`, the `+` signs, `nocolor()`, `color('red')`,
      the `-` signs, `nocolor()`, then the padding. */
  lemma BarCodes(pluses: int, minuses: int, pad: string)
    ensures var green, red := Color(Name("green")), Color(Name("red"));
            && green.Ok? && red.Ok?
            && Bar(pluses, minuses, pad)
               == green.value + Repeat('+', pluses) + NoColor() + red.value + Repeat('-', minuses) + NoColor() + pad
  {
    BarColors();
  }

  /** `plusminus` is that bar for the scaled counts, padded when asked. */
  lemma PlusMinusCodes(plus: int, minus: int, maxt: int, width: int, padded: bool)
    requires maxt != 0
    ensures var c := BarCounts(plus, minus, maxt, width);
            var green, red := Color(Name("green")), Color(Name("red"));
            && green.Ok? && red.Ok?
            && PlusMinus(plus, minus, maxt, width, padded)
               == Ok(green.value + Repeat('+', c.0) + NoColor() + red.value + Repeat('-', c.1) + NoColor()
                     + (if padded then Repeat(' ', width - (c.0 + c.1)) else ""))
  {
    var c := BarCounts(plus, minus, maxt, width);
    var pad: string := if padded then Repeat(' ', width - (c.0 + c.1)) else "";
    PlusMinusIsBar(plus, minus, maxt, width, padded, c, pad);
    BarCodes(c.0, c.1, pad);
  }

  lemma PlusMinusIsBar(plus: int, minus: int, maxt: int, width: int, padded: bool, c: (int, int), pad: string)
    requires maxt != 0 && c == BarCounts(plus, minus, maxt, width)
    requires pad == if padded then Repeat(' ', width - (c.0 + c.1)) else ""
    ensures PlusMinus(plus, minus, maxt, width, padded) == Ok(Bar(c.0, c.1, pad))
  {
  }

  lemma VisibleAfterSgr(n: nat, rest: string)
    ensures Visible(Csi(n, "m") + rest) == Visible(rest)
  {
    DigitsAreParams(IntToStr(n));
    VisibleAfterCsi(IntToStr(n), 'm', rest);
    assert CSI + IntToStr(n) + ['m'] + rest == Csi(n, "m") + rest;
  }

  lemma RepeatHasNoEsc(c: char, n: int)
    requires c != ESC
    ensures NoEsc(Repeat(c, n))
  {
  }

  lemma GreenAndRed()
    ensures COLORS["green"] == 2 && COLORS["red"] == 1
  {
  }

  lemma Reassoc(a: string, b: string, c: string, d: string, e: string, f: string, g: string)
    ensures a + b + c + d + e + f + g == a + (b + (c + (d + (e + (f + g)))))
  {
  }

  /** Two coloured runs, each followed by the reset code, then plain padding,
      show as the two runs and the padding. */
  lemma SegmentsVisible(g: nat, r: nat, pl: string, mi: string, pad: string)
    requires NoEsc(pl) && NoEsc(mi) && NoEsc(pad)
    ensures Visible(Csi(g, "m") + pl + Csi(0, "m") + Csi(r, "m") + mi + Csi(0, "m") + pad) == pl + mi + pad
  {
    var green, reset, red := Csi(g, "m"), Csi(0, "m"), Csi(r, "m");
    calc {
      Visible(green + pl + reset + red + mi + reset + pad);
      { Reassoc(green, pl, reset, red, mi, reset, pad); }
      Visible(green + (pl + (reset + (red + (mi + (reset + pad))))));
      { VisibleAfterSgr(g, pl + (reset + (red + (mi + (reset + pad))))); }
      Visible(pl + (reset + (red + (mi + (reset + pad)))));
      { VisiblePlain(pl, reset + (red + (mi + (reset + pad)))); }
      pl + Visible(reset + (red + (mi + (reset + pad))));
      { VisibleAfterSgr(0, red + (mi + (reset + pad))); }
      pl + Visible(red + (mi + (reset + pad)));
      { VisibleAfterSgr(r, mi + (reset + pad)); }
      pl + Visible(mi + (reset + pad));
      { VisiblePlain(mi, reset + pad); }
      pl + (mi + Visible(reset + pad));
      { VisibleAfterSgr(0, pad); }
      pl + (mi + Visible(pad));
      { VisiblePlain(pad, []); assert pad + [] == pad; }
      pl + (mi + (pad + Visible([])));
      { assert pad + Visible([]) == pad; Assoc(pl, mi, pad); }
      pl + mi + pad;
    }
  }

  /** On screen the bar is its `+` signs, its `-` signs and its padding. */
  lemma BarVisible(pluses: int, minuses: int, pad: string)
    requires NoEsc(pad)
    ensures Visible(Bar(pluses, minuses, pad)) == Repeat('+', pluses) + Repeat('-', minuses) + pad
  {
    RepeatHasNoEsc('+', pluses);
    RepeatHasNoEsc('-', minuses);
    GreenAndRed();
    SegmentsVisible(32, 31, Repeat('+', pluses), Repeat('-', minuses), pad);
  }

  /** On screen the result of `plusminus` is the `+` signs, the `-` signs and the padding. */
  lemma PlusMinusVisible(plus: int, minus: int, maxt: int, width: int, padded: bool)
    requires maxt != 0
    ensures var c := BarCounts(plus, minus, maxt, width);
            Visible(PlusMinus(plus, minus, maxt, width, padded).value)
              == Repeat('+', c.0) + Repeat('-', c.1) + (if padded then Repeat(' ', width - (c.0 + c.1)) else "")
  {
    var c := BarCounts(plus, minus, maxt, width);
    var pad: string := if padded then Repeat(' ', width - (c.0 + c.1)) else "";
    RepeatHasNoEsc(' ', width - (c.0 + c.1));
    assert PlusMinus(plus, minus, maxt, width, padded).value == Bar(c.0, c.1, pad);
    BarVisible(c.0, c.1, pad);
  }

  /** When the counts fit the total (0 <= plus, 0 <= minus, plus + minus <= maxt)
      the signs fit the width. */
  lemma BarCountsFit(plus: int, minus: int, maxt: int, width: int)
    requires 0 <= plus && 0 <= minus && plus + minus <= maxt && 0 < maxt && 0 <= width
    ensures var c := BarCounts(plus, minus, maxt, width);
            0 <= c.0 && 0 <= c.1 && c.0 + c.1 <= width
  {
    MulNonNeg(width, plus);
    MulNonNeg(width, minus);
    var a, b := TruncDiv(width * plus, maxt), TruncDiv(width * minus, maxt);
    SumBound(a, b, width, plus, minus, maxt);
  }

  lemma SumBound(a: int, b: int, w: int, p: int, q: int, m: int)
    requires m > 0 && w >= 0 && p + q <= m && a * m <= w * p && b * m <= w * q
    ensures a + b <= w
  {
    assert a * m + b * m == (a + b) * m;
    assert w * p + w * q == w * (p + q);
    MulLe(w, p + q, m);
    if a + b > w {
      MulLt(w, a + b, m);
    }
  }

  /** So a padded bar is exactly `width` wide on screen. */
  lemma BarFits(plus: int, minus: int, maxt: int, width: int)
    requires 0 <= plus && 0 <= minus && plus + minus <= maxt && 0 < maxt && 0 <= width
    ensures |Visible(PlusMinus(plus, minus, maxt, width, true).value)| == width
  {
    var c := BarCounts(plus, minus, maxt, width);
    BarCountsFit(plus, minus, maxt, width);
    PlusMinusVisible(plus, minus, maxt, width, true);
  }

  lemma MulNonNeg(a: int, b: int)
    requires 0 <= a && 0 <= b
    ensures 0 <= a * b
  {
  }

  lemma MulLe(w: int, s: int, m: int)
    requires 0 <= w && s <= m
    ensures w * s <= w * m
  {
    assert w * m - w * s == w * (m - s);
    MulNonNeg(w, m - s);
  }

  lemma MulLt(w: int, k: int, m: int)
    requires w < k && m > 0
    ensures w * m < k * m
  {
    assert k * m - w * m == (k - w) * m;
    MulNonNeg(k - w - 1, m);
  }
}
