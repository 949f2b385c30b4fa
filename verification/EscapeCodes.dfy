/** Terminal escape codes: "[" code (";" number)* "]" behind an escape character, read from text that may
    still be arriving. */
module EscapeCodes {
  import opened Bytes

  const MAX_ARG_COUNT := 3
  const MAX_ESCC_LENGTH := 19
  const ESCC_ARG_UNUSED := -1

  const ESCC_INVALID := -1
  const ESCC_INCOMPLETE := -2
  const ESCC_MOVE_LEFT := 0
  const ESCC_MOVE_RIGHT := 1
  const ESCC_MOVE_UP := 2
  const ESCC_MOVE_DOWN := 3
  const ESCC_MOVE_HOME := 4
  const ESCC_MOVE_LINESTART := 5
  const ESCC_MOVE_LINEEND := 6
  const ESCC_DEL_FRONT := 7
  const ESCC_DEL_BACK := 8
  const ESCC_KEYCODE := 9
  const ESCC_COLOR := 10
  const ESCC_GOTO_XY := 11
  const ESCC_SIM_INPUT := 12

  const NUL := '\0'

  /** The character under a cursor; behind the text there is a zero. */
  function Head(s: string): char {
    if s == "" then NUL else s[0]
  }

  predicate Digit(c: char) {
    '0' <= c <= '9'
  }

  function DigitValue(c: char): int
    requires Digit(c)
  {
    c as int - '0' as int
  }

  const INT_MAX := 0x7fff_ffff

  /** An int of 32 bits that wraps around, as the machines have it; C leaves the overflow undefined. */
  function Wrap32(x: int): (r: int)
    ensures -INT_MAX - 1 <= r <= INT_MAX && (-INT_MAX - 1 <= x <= INT_MAX ==> r == x)
  {
    (x + INT_MAX + 1) % 0x1_0000_0000 - INT_MAX - 1
  }

  /** An argument while its digits are read. */
  function Shift(n: int, c: char): int
    requires Digit(c)
  {
    Wrap32(10 * (if n == ESCC_ARG_UNUSED then 0 else n) + DigitValue(c))
  }

  /** How far the arguments go: what is left, how much of the limit is used, and their values. */
  datatype Scan<T> = TooLong | Scanned(rest: string, j: nat, n: T)

  function ScanDigits(s: string, j: nat, n: int): (r: Scan<int>)
    ensures r.Scanned? ==> |r.rest| <= |s|
    decreases |s|
  {
    if j + 1 >= MAX_ESCC_LENGTH then TooLong
    else if Digit(Head(s)) then ScanDigits(s[1..], j + 1, Shift(n, s[0]))
    else Scanned(s, j + 1, n)
  }

  function ScanArgs(s: string, j: nat, k: nat): (r: Scan<seq<int>>)
    ensures r.Scanned? ==> |r.rest| <= |s| && |r.n| == k
    decreases k
  {
    if k == 0 then Scanned(s, j, [])
    else if Head(s) == ';' then
      match ScanDigits(s[1..], j, ESCC_ARG_UNUSED)
      case TooLong => TooLong
      case Scanned(rest, j', n) => Before(n, ScanArgs(rest, j', k - 1))
    else Before(ESCC_ARG_UNUSED, ScanArgs(s, j, k - 1))
  }

  function Before(n: int, r: Scan<seq<int>>): Scan<seq<int>> {
    if r.TooLong? then TooLong else Scanned(r.rest, r.j, [n] + r.n)
  }

  predicate CodeChar(c: char) {
    c != NUL && c != ';' && c != ']'
  }

  function CodeLen(s: string): (n: nat)
    ensures n <= 2 && n <= |s|
  {
    if !CodeChar(Head(s)) then 0 else if !CodeChar(Head(s[1..])) then 1 else 2
  }

  /** strncmp(start, name, |code|) == 0. */
  predicate Abbreviates(code: string, name: string) {
    code <= name
  }

  function Command(code: string): int {
    if Abbreviates(code, "co") then ESCC_COLOR
    else if Abbreviates(code, "ml") then ESCC_MOVE_LEFT
    else if Abbreviates(code, "mr") then ESCC_MOVE_RIGHT
    else if Abbreviates(code, "mu") then ESCC_MOVE_UP
    else if Abbreviates(code, "md") then ESCC_MOVE_DOWN
    else if Abbreviates(code, "mh") then ESCC_MOVE_HOME
    else if Abbreviates(code, "ms") then ESCC_MOVE_LINESTART
    else if Abbreviates(code, "me") then ESCC_MOVE_LINEEND
    else if Abbreviates(code, "kc") then ESCC_KEYCODE
    else if Abbreviates(code, "df") then ESCC_DEL_FRONT
    else if Abbreviates(code, "db") then ESCC_DEL_BACK
    else if Abbreviates(code, "go") then ESCC_GOTO_XY
    else if Abbreviates(code, "si") then ESCC_SIM_INPUT
    else ESCC_INVALID
  }

  datatype Args = Args(n1: int, n2: int, n3: int)

  function OrDefault(n: int, d: int): int {
    if n == ESCC_ARG_UNUSED then d else n
  }

  function Defaults(cmd: int, a: Args): Args {
    if cmd == ESCC_GOTO_XY then Args(OrDefault(a.n1, 0), OrDefault(a.n2, 0), ESCC_ARG_UNUSED)
    else if cmd in {ESCC_SIM_INPUT, ESCC_DEL_FRONT, ESCC_DEL_BACK,
                    ESCC_MOVE_LEFT, ESCC_MOVE_RIGHT, ESCC_MOVE_UP, ESCC_MOVE_DOWN} then
      Args(OrDefault(a.n1, 1), ESCC_ARG_UNUSED, ESCC_ARG_UNUSED)
    else if cmd in {ESCC_MOVE_LINESTART, ESCC_MOVE_LINEEND, ESCC_MOVE_HOME} then
      Args(ESCC_ARG_UNUSED, ESCC_ARG_UNUSED, ESCC_ARG_UNUSED)
    else a
  }

  /** The code, how far the cursor moves, and the arguments where they are set. */
  datatype Answer = Answer(cmd: int, used: nat, args: Option<Args>)

  function Parse(s: string): (r: Answer)
    ensures r.used <= |s| && (r.cmd == ESCC_INCOMPLETE ==> r.used == 0)
  {
    if Head(s) == NUL then Answer(ESCC_INCOMPLETE, 0, None)
    else if s[0] != '[' then Answer(ESCC_INVALID, 0, None)
    else
      var m := CodeLen(s[1..]);
      match ScanArgs(s[1 + m..], m, MAX_ARG_COUNT)
      case TooLong => Answer(ESCC_INVALID, 0, None)
      case Scanned(rest, _, n) => Finish(s, m, rest, Args(n[0], n[1], n[2]))
  }

  function Finish(s: string, m: nat, rest: string, a: Args): Answer
    requires m <= 2 && 1 + m <= |s| && |rest| <= |s| - 1 - m
  {
    if Head(rest) == NUL then Answer(ESCC_INCOMPLETE, 0, Some(a))
    else
      var used := |s| - |rest| + 1;
      if m == 0 || rest[0] != ']' then Answer(ESCC_INVALID, used, Some(a))
      else
        var cmd := Command(s[1..1 + m]);
        Answer(cmd, used, Some(Defaults(cmd, a)))
  }

  // ----- incremental reading -----

  /** More text does not change where digits end, once something else than the end of the text ended them. */
  lemma {:induction false} DigitsStable(s: string, t: string, j: nat, n: int)
    ensures var r := ScanDigits(s, j, n);
      && (r.TooLong? ==> ScanDigits(s + t, j, n) == TooLong)
      && (r.Scanned? && r.rest != "" ==> ScanDigits(s + t, j, n) == Scanned(r.rest + t, r.j, r.n))
    decreases |s|
  {
    if s != "" && Digit(s[0]) && j + 1 < MAX_ESCC_LENGTH {
      assert (s + t)[1..] == s[1..] + t;
      DigitsStable(s[1..], t, j + 1, Shift(n, s[0]));
    }
  }

  lemma {:induction false} NoArgs(j: nat, k: nat)
    ensures ScanArgs("", j, k).Scanned? && ScanArgs("", j, k).rest == ""
    decreases k
  {
    if k > 0 { NoArgs(j, k - 1); }
  }

  lemma {:induction false} ArgsStable(s: string, t: string, j: nat, k: nat)
    ensures var r := ScanArgs(s, j, k);
      && (r.TooLong? ==> ScanArgs(s + t, j, k) == TooLong)
      && (r.Scanned? && r.rest != "" ==> ScanArgs(s + t, j, k) == Scanned(r.rest + t, r.j, r.n))
    decreases k
  {
    if s == "" {
      NoArgs(j, k);
    } else if k > 0 && s[0] == ';' {
      assert (s + t)[1..] == s[1..] + t;
      DigitsStable(s[1..], t, j, ESCC_ARG_UNUSED);
      var d := ScanDigits(s[1..], j, ESCC_ARG_UNUSED);
      if d.Scanned? {
        if d.rest == "" { NoArgs(d.j, k - 1); } else { ArgsStable(d.rest, t, d.j, k - 1); }
      }
    } else if k > 0 {
      ArgsStable(s, t, j, k - 1);
    }
  }

  /** Once an answer is given, more text does not change it. */
  lemma ParseStable(s: string, t: string)
    requires Parse(s).cmd != ESCC_INCOMPLETE
    ensures Parse(s + t) == Parse(s)
  {
    hide ScanArgs, CodeLen, Command, Defaults;
    if s[0] == '[' {
      var m := CodeLen(s[1..]);
      if s[1 + m..] == "" {
        NoArgs(m, MAX_ARG_COUNT);
      } else {
        DropConcat(s, t, 1);
        DropConcat(s, t, 1 + m);
        CodeStable(s[1..], t);
        ArgsStable(s[1 + m..], t, m, MAX_ARG_COUNT);
        assert (s + t)[1..1 + m] == s[1..1 + m];
      }
    }
  }

  lemma DropConcat(s: string, t: string, k: nat)
    requires k <= |s|
    ensures (s + t)[k..] == s[k..] + t
  {}

  /** A code that ended before the end of the text ends there whatever follows. */
  lemma CodeStable(s: string, t: string)
    ensures CodeLen(s) == 2 || CodeLen(s) < |s| ==> CodeLen(s + t) == CodeLen(s)
  {
    if s != "" { assert (s + t)[1..] == s[1..] + t; }
  }

  // ----- written codes -----

  predicate AllDigits(d: string) {
    forall i | 0 <= i < |d| :: Digit(d[i])
  }

  /** The number that digits write. */
  function Decimal(d: string): (n: nat)
    requires AllDigits(d)
  {
    if d == "" then 0 else 10 * Decimal(d[..|d| - 1]) + DigitValue(d[|d| - 1])
  }

  /** An argument without digits is unused. */
  function Value(d: string): int
    requires AllDigits(d)
  {
    if d == "" then ESCC_ARG_UNUSED else Decimal(d)
  }

  /** What is read of an argument. */
  function Read(d: string): int
    requires AllDigits(d)
  {
    if d == "" then ESCC_ARG_UNUSED else Shift(Read(d[..|d| - 1]), d[|d| - 1])
  }

  /** The value read is the one written exactly if an int can hold that. */
  lemma {:induction false} ReadExactly(d: string)
    requires AllDigits(d)
    ensures Read(d) == Value(d) <==> Value(d) <= INT_MAX
  {
    if d != "" { ReadExactly(d[..|d| - 1]); }
  }

  lemma {:induction false} DigitsRead(d: string, e: string, rest: string, j: nat)
    requires AllDigits(d) && AllDigits(e) && !Digit(Head(rest))
    ensures ScanDigits(e + rest, j, Read(d)) ==
      if j + 1 + |e| < MAX_ESCC_LENGTH then Scanned(rest, j + 1 + |e|, Read(d + e)) else TooLong
    decreases |e|
  {
    hide Shift;
    if e == "" {
      assert e + rest == rest && d + e == d;
    } else if j + 1 < MAX_ESCC_LENGTH {
      assert (e + rest)[1..] == e[1..] + rest;
      var d' := d + [e[0]];
      assert d'[..|d|] == d;
      assert d' + e[1..] == d + e;
      DigitsRead(d', e[1..], rest, j + 1);
    }
  }

  lemma FirstNumber(d: string, rest: string, j: nat)
    requires AllDigits(d) && !Digit(Head(rest))
    ensures ScanDigits(d + rest, j, ESCC_ARG_UNUSED) ==
      if j + 1 + |d| < MAX_ESCC_LENGTH then Scanned(rest, j + 1 + |d|, Read(d)) else TooLong
  {
    DigitsRead("", d, rest, j);
    assert "" + d == d;
  }

  ghost predicate Numbers(ds: seq<string>) {
    forall i | 0 <= i < |ds| :: AllDigits(ds[i])
  }

  function ArgText(ds: seq<string>): string {
    if ds == [] then "" else ";" + ds[0] + ArgText(ds[1..])
  }

  function Values(ds: seq<string>, k: nat): (n: seq<int>)
    requires |ds| <= k && forall i | 0 <= i < |ds| :: AllDigits(ds[i])
    ensures |n| == k
  {
    if k == 0 then []
    else if ds == [] then [ESCC_ARG_UNUSED] + Values([], k - 1)
    else [Read(ds[0])] + Values(ds[1..], k - 1)
  }

  lemma OneArg(d: string, rest: string, j: nat, k: nat)
    requires k > 0 && AllDigits(d) && !Digit(Head(rest))
    ensures ScanArgs(";" + (d + rest), j, k) ==
      if j + 1 + |d| < MAX_ESCC_LENGTH then Before(Read(d), ScanArgs(rest, j + 1 + |d|, k - 1)) else TooLong
  {
    hide ScanDigits, Read, AllDigits;
    assert (";" + (d + rest))[1..] == d + rest;
    FirstNumber(d, rest, j);
  }

  lemma {:induction false} ArgsUnused(rest: string, j: nat, k: nat)
    requires Head(rest) != ';'
    ensures ScanArgs(rest, j, k) == Scanned(rest, j, Values([], k))
    decreases k
  {
    if k > 0 { ArgsUnused(rest, j, k - 1); }
  }

  /** At `rest` the arguments end: it begins neither with a further one nor with more of the last one. */
  ghost predicate ArgsEnd(ds: seq<string>, rest: string, k: nat) {
    |ds| <= k && Numbers(ds) && (|ds| < k ==> Head(rest) != ';') && (ds != [] ==> !Digit(Head(rest)))
  }

  lemma {:induction false} ArgsRead(ds: seq<string>, rest: string, j: nat, k: nat)
    requires ArgsEnd(ds, rest, k) && j < MAX_ESCC_LENGTH
    ensures ScanArgs(ArgText(ds) + rest, j, k) ==
      if j + |ArgText(ds)| < MAX_ESCC_LENGTH then Scanned(rest, j + |ArgText(ds)|, Values(ds, k)) else TooLong
    decreases k
  {
    hide ScanArgs, Read, AllDigits;
    if ds == [] {
      assert ArgText(ds) + rest == rest;
      if k > 0 { ArgsUnused(rest, j, k); } else { NoneWanted(rest, j); }
    } else {
      var d, more := ds[0], ArgText(ds[1..]) + rest;
      var s := ArgText(ds) + rest;
      assert s == ";" + (d + more);
      HeadOfMore(ds[1..], rest);
      OneArg(d, more, j, k);
      if j + 1 + |d| < MAX_ESCC_LENGTH { ArgsRead(ds[1..], rest, j + 1 + |d|, k - 1); }
    }
  }

  lemma NoneWanted(rest: string, j: nat)
    ensures ScanArgs(rest, j, 0) == Scanned(rest, j, [])
  {}

  lemma HeadOfMore(ds: seq<string>, rest: string)
    ensures Head(ArgText(ds) + rest) == if ds == [] then Head(rest) else ';'
  {
    if ds == [] { assert ArgText(ds) + rest == rest; }
  }

  /** The text of a code with its arguments. */
  function CodeText(code: string, ds: seq<string>): string {
    "[" + code + ArgText(ds) + "]"
  }

  /** One or two letters that stand for a command. */
  predicate Known(code: string) {
    1 <= |code| <= 2 && Command(code) != ESCC_INVALID
  }

  /** A code with arguments within the limit. */
  ghost predicate Proper(code: string, ds: seq<string>) {
    Known(code) && |ds| <= MAX_ARG_COUNT && Numbers(ds) && |code| + |ArgText(ds)| < MAX_ESCC_LENGTH
  }

  /** Comparing with the known codes letter by letter. */
  lemma Letters(code: string)
    ensures forall name {:trigger Abbreviates(code, name)} | |name| == 2 && |code| == 2 ::
      Abbreviates(code, name) <==> code[0] == name[0] && code[1] == name[1]
    ensures forall name {:trigger Abbreviates(code, name)} | |name| == 2 && |code| == 1 ::
      Abbreviates(code, name) <==> code[0] == name[0]
    ensures forall name | |name| == 2 && |code| == 2 && code[0] == name[0] && code[1] == name[1] :: code == name
  {}

  lemma MoveCommands()
    ensures Command("ml") == 0 && Command("mr") == 1 && Command("mu") == 2 && Command("md") == 3
    ensures Command("mh") == 4 && Command("ms") == 5 && Command("me") == 6
  {
    Letters("ml");
    Letters("mr");
    Letters("mu");
    Letters("md");
    Letters("mh");
    Letters("ms");
    Letters("me");
  }

  lemma OtherCommands()
    ensures Command("df") == 7 && Command("db") == 8 && Command("kc") == 9
    ensures Command("co") == 10 && Command("go") == 11 && Command("si") == 12
  {
    Letters("df");
    Letters("db");
    Letters("kc");
    Letters("co");
    Letters("go");
    Letters("si");
  }

  /** A single letter stands for the first code that begins with it. */
  lemma Abbreviations()
    ensures Command("c") == 10 && Command("m") == 0 && Command("k") == 9
    ensures Command("d") == 7 && Command("g") == 11 && Command("s") == 12
  {
    Letters("c");
    Letters("m");
    Letters("k");
    Letters("d");
    Letters("g");
    Letters("s");
  }

  lemma KnownPairs(code: string)
    requires |code| == 2
    ensures Known(code) <==> code in {"co", "ml", "mr", "mu", "md", "mh", "ms", "me", "kc", "df", "db", "go", "si"}
  {
    if Known(code) {
      Letters(code);
    } else {
      MoveCommands();
      OtherCommands();
    }
  }

  lemma KnownLetters(code: string)
    requires |code| == 1
    ensures Known(code) <==> code[0] in {'c', 'm', 'k', 'd', 'g', 's'}
  {
    Letters(code);
  }

  /** The known codes are exactly thirteen pairs of letters and the six letters that these begin with. */
  lemma KnownCodes(code: string)
    ensures Known(code) <==>
      || code in {"co", "ml", "mr", "mu", "md", "mh", "ms", "me", "kc", "df", "db", "go", "si"}
      || (|code| == 1 && code[0] in {'c', 'm', 'k', 'd', 'g', 's'})
  {
    hide Command;
    if |code| == 2 { KnownPairs(code); }
    if |code| == 1 { KnownLetters(code); }
  }

  /** Which arguments a code keeps, and what the missing ones default to. */
  lemma KnownDefaults(code: string, a: Args)
    ensures code in {"m", "d", "s", "ml", "mr", "mu", "md", "df", "db", "si"} ==>
      Defaults(Command(code), a) == Args(OrDefault(a.n1, 1), ESCC_ARG_UNUSED, ESCC_ARG_UNUSED)
    ensures code in {"mh", "ms", "me"} ==>
      Defaults(Command(code), a) == Args(ESCC_ARG_UNUSED, ESCC_ARG_UNUSED, ESCC_ARG_UNUSED)
    ensures code in {"g", "go"} ==>
      Defaults(Command(code), a) == Args(OrDefault(a.n1, 0), OrDefault(a.n2, 0), ESCC_ARG_UNUSED)
    ensures code in {"k", "c", "kc", "co"} ==> Defaults(Command(code), a) == a
  {
    hide Command;
    MoveCommands();
    OtherCommands();
    Abbreviations();
  }

  // ----- every text -----

  /** The text is split where the scanner splits it: a code of at most two letters, at most three arguments,
      and what is left. */
  ghost predicate SplitsInto(t: string, code: string, ds: seq<string>, rest: string) {
    && t == "[" + code + (ArgText(ds) + rest)
    && |code| <= 2 && (forall i | 0 <= i < |code| :: code[i] !in {NUL, ';', ']'})
    && (|code| < 2 ==> Head(ArgText(ds) + rest) in {NUL, ';', ']'})
    && ArgsEnd(ds, rest, 3)
  }

  lemma CodeEnds(code: string, t: string)
    requires |code| <= 2 && forall i | 0 <= i < |code| :: CodeChar(code[i])
    requires |code| < 2 ==> !CodeChar(Head(t))
    ensures CodeLen(code + t) == |code|
  {
    if code == "" {
      assert code + t == t;
    } else {
      assert (code + t)[0] == code[0] && (code + t)[1..] == code[1..] + t;
      if |code| == 1 { assert code[1..] + t == t; }
    }
  }

  /** The answer to every text that begins with a bracket: too long, incomplete, invalid with the cursor
      behind the first character that does not fit, or a command. */
  lemma AnswerIs(t: string, code: string, ds: seq<string>, rest: string)
    requires SplitsInto(t, code, ds, rest)
    ensures var n, used := Values(ds, 3), |code| + |ArgText(ds)| + 2;
      var a := Args(n[0], n[1], n[2]);
      Parse(t) ==
        if |code| + |ArgText(ds)| >= 19 then Answer(ESCC_INVALID, 0, None)
        else if Head(rest) == NUL then Answer(ESCC_INCOMPLETE, 0, Some(a))
        else if rest[0] == ']' && Known(code) then Answer(Command(code), used, Some(Defaults(Command(code), a)))
        else Answer(ESCC_INVALID, used, Some(a))
  {
    hide ScanArgs, Values, Defaults, CodeLen, Command, ArgText;
    var m := |code|;
    assert t[1..] == code + (ArgText(ds) + rest) && t[1 + m..] == ArgText(ds) + rest && t[1..1 + m] == code;
    CodeEnds(code, ArgText(ds) + rest);
    ArgsRead(ds, rest, m, MAX_ARG_COUNT);
    NoDefaults();
  }

  lemma NoDefaults()
    ensures forall a :: Defaults(ESCC_INVALID, a) == a
  {}

  lemma {:induction false} SplitDigits(s: string) returns (d: string, rest: string)
    ensures s == d + rest && AllDigits(d) && !Digit(Head(rest))
    decreases |s|
  {
    if s != "" && Digit(s[0]) {
      d, rest := SplitDigits(s[1..]);
      d := [s[0]] + d;
    } else {
      d, rest := "", s;
    }
  }

  lemma {:induction false} SplitArgs(s: string, k: nat) returns (ds: seq<string>, rest: string)
    ensures s == ArgText(ds) + rest && ArgsEnd(ds, rest, k)
    ensures ds == [] <==> k == 0 || Head(s) != ';'
    decreases k
  {
    hide AllDigits;
    if k > 0 && Head(s) == ';' {
      var d, more := SplitDigits(s[1..]);
      var ds';
      ds', rest := SplitArgs(more, k - 1);
      HeadOfMore(ds', rest);
      ds := [d] + ds';
      assert ds[1..] == ds';
      assert ArgText(ds) + rest == ";" + (d + (ArgText(ds') + rest));
    } else {
      ds, rest := [], s;
      assert ArgText([]) + rest == rest;
    }
  }

  lemma SplitCode(s: string) returns (code: string, t: string)
    ensures s == code + t && |code| <= 2 && (forall i | 0 <= i < |code| :: CodeChar(code[i]))
    ensures |code| < 2 ==> !CodeChar(Head(t))
  {
    var m := CodeLen(s);
    code, t := s[..m], s[m..];
    if m == 1 { assert s[1..] == t; }
    if m == 2 { assert s[1..][0] == s[1]; }
  }

  /** Every text that begins with a bracket can be split in this way. */
  lemma EveryTextSplits(t: string) returns (code: string, ds: seq<string>, rest: string)
    requires t != "" && t[0] == '['
    ensures SplitsInto(t, code, ds, rest)
  {
    hide CodeLen, ArgText;
    var s;
    code, s := SplitCode(t[1..]);
    ds, rest := SplitArgs(s, 3);
    assert t == "[" + t[1..];
    assert "[" + (code + s) == "[" + code + s;
  }

  /** After an invalid code the cursor stays exactly if the text does not begin with a bracket or goes beyond
      the limit; otherwise it stands behind the first character that belongs neither to code nor arguments. */
  lemma InvalidMovesCursor(t: string)
    requires Parse(t).cmd == ESCC_INVALID
    ensures t != "" && (t[0] != '[' ==> Parse(t) == Answer(ESCC_INVALID, 0, None))
    ensures t[0] == '[' ==> exists code, ds, rest ::
      && SplitsInto(t, code, ds, rest)
      && Parse(t).used == if |code| + |ArgText(ds)| >= 19 then 0 else |code| + |ArgText(ds)| + 2
  {
    hide ScanArgs, Values, CodeLen, Command, ArgText, SplitsInto, Defaults;
    if t[0] == '[' {
      var code, ds, rest := EveryTextSplits(t);
      AnswerIs(t, code, ds, rest);
      NotInvalid(code);
    }
  }

  /** A colour code of the kind other terminals have is skipped as invalid. */
  lemma ForeignColour(after: string)
    ensures Parse("[31m" + after) ==
      Answer(ESCC_INVALID, 4, Some(Args(ESCC_ARG_UNUSED, ESCC_ARG_UNUSED, ESCC_ARG_UNUSED)))
  {
    hide Parse, Command, Defaults;
    var t, rest := "[31m" + after, "m" + after;
    assert ArgText([]) + rest == rest;
    assert "[" + "31" + rest == t;
    assert SplitsInto(t, "31", [], rest);
    AnswerIs(t, "31", [], rest);
  }

  lemma NotInvalid(code: string)
    ensures Known(code) ==> Command(code) >= 0
  {}

  // ----- known codes in a text -----

  /** A known code with up to three arguments is read as such if it keeps within the limit, and as invalid
      otherwise, whatever follows it. */
  lemma CodeRead(code: string, ds: seq<string>, after: string)
    requires Known(code) && |ds| <= MAX_ARG_COUNT && Numbers(ds)
    ensures Parse(CodeText(code, ds) + after) ==
      if |code| + |ArgText(ds)| < MAX_ESCC_LENGTH
      then var n := Values(ds, MAX_ARG_COUNT);
        Answer(Command(code), |CodeText(code, ds)|, Some(Defaults(Command(code), Args(n[0], n[1], n[2]))))
      else Answer(ESCC_INVALID, 0, None)
  {
    hide Parse, Values, Defaults, Command, ArgText;
    var t, rest := CodeText(code, ds) + after, "]" + after;
    assert t == "[" + code + (ArgText(ds) + rest);
    HeadOfMore(ds, rest);
    KnownLetter(code);
    AnswerIs(t, code, ds, rest);
  }

  lemma KnownLetter(code: string)
    requires Known(code)
    ensures forall i | 0 <= i < |code| :: CodeChar(code[i])
  {
    KnownCodes(code);
  }

  /** While such a code is still arriving, the answer is that it is incomplete, and the cursor stays. */
  lemma PrefixIncomplete(code: string, ds: seq<string>, n: nat)
    requires Proper(code, ds) && n < |CodeText(code, ds)|
    ensures var r := Parse(CodeText(code, ds)[..n]); r.cmd == ESCC_INCOMPLETE && r.used == 0
  {
    hide Parse, CodeText, Command, Defaults, Values, ArgText;
    var text := CodeText(code, ds);
    CodeRead(code, ds, "");
    assert text + "" == text && text[..n] + text[n..] == text;
    if Parse(text[..n]).cmd != ESCC_INCOMPLETE { ParseStable(text[..n], text[n..]); }
  }

  // ----- nothing else is accepted -----

  /** Whatever is answered with a command begins with a known code and its arguments, within the limit. */
  lemma OnlyCodes(t: string) returns (code: string, ds: seq<string>, after: string)
    requires Parse(t).cmd >= 0
    ensures Proper(code, ds) && t == CodeText(code, ds) + after
  {
    hide ScanArgs, CodeLen, Command, Defaults, Values;
    var rest;
    code, ds, rest := EveryTextSplits(t);
    AnswerIs(t, code, ds, rest);
    after := rest[1..];
    assert rest == "]" + after;
    assert t == "[" + code + ArgText(ds) + rest;
  }

  /** Text is answered with a command exactly if it begins with a known code and arguments. */
  lemma AcceptsExactly(t: string)
    ensures Parse(t).cmd >= 0 <==>
      exists code, ds :: Proper(code, ds) && CodeText(code, ds) <= t
  {
    hide Parse, Known, ArgText, CodeText;
    if Parse(t).cmd >= 0 {
      var code, ds, after := OnlyCodes(t);
    }
    if code, ds :| Proper(code, ds) && CodeText(code, ds) <= t {
      var text := CodeText(code, ds);
      CodeRead(code, ds, t[|text|..]);
      assert t == text + t[|text|..];
      KnownIsCommand(code);
    }
  }

  lemma KnownIsCommand(code: string)
    requires Known(code)
    ensures Command(code) >= 0
  {}

  /** Text without zeros that is called incomplete can be completed: with a bracket it is answered at last,
      and with a command exactly if it then is a known code with arguments. */
  lemma Completable(s: string)
    requires Parse(s).cmd == ESCC_INCOMPLETE && NUL !in s
    ensures Parse(s + "]").cmd != ESCC_INCOMPLETE
    ensures Parse(s + "]").cmd >= 0 <==> exists code, ds :: Proper(code, ds) && CodeText(code, ds) == s + "]"
  {
    hide Parse, Known, ArgText, CodeText, Proper;
    Answered(s);
    AcceptsExactly(s);
    AcceptsExactly(s + "]");
    if code, ds :| Proper(code, ds) && CodeText(code, ds) <= s + "]" { PrefixOrAll(CodeText(code, ds), s); }
  }

  lemma PrefixOrAll(text: string, s: string)
    requires text <= s + "]"
    ensures text <= s || text == s + "]"
  {
    if |text| <= |s| { assert text == (s + "]")[..|text|] == s[..|text|]; } else { assert text == (s + "]")[..|text|]; }
  }

  lemma Answered(s: string)
    requires Parse(s).cmd == ESCC_INCOMPLETE && NUL !in s
    ensures Parse(s + "]").cmd != ESCC_INCOMPLETE
  {
    hide ScanArgs, CodeLen, Command, Defaults;
    if s == "" {
      assert s + "]" == "]";
    } else {
      var m := CodeLen(s[1..]);
      var t := s + "]";
      DropConcat(s, "]", 1);
      DropConcat(s, "]", 1 + m);
      CodeClosed(s[1..]);
      ArgsClosed(s[1 + m..] + "]", m, MAX_ARG_COUNT);
      assert t[1..1 + m] == s[1..1 + m];
      CommandKnown(t[1..1 + m]);
    }
  }

  lemma CommandKnown(code: string)
    ensures Command(code) != ESCC_INCOMPLETE
  {}

  lemma CodeClosed(s: string)
    ensures CodeLen(s + "]") == CodeLen(s)
  {
    if s != "" { assert (s + "]")[1..] == s[1..] + "]"; }
  }

  /** Text that ends in "]". */
  ghost predicate Closed(s: string) {
    s != "" && s[|s| - 1] == ']' && NUL !in s
  }

  lemma {:induction false} DigitsClosed(s: string, j: nat, n: int)
    requires Closed(s)
    ensures var r := ScanDigits(s, j, n); r.Scanned? ==> Closed(r.rest)
    decreases |s|
  {
    if Digit(s[0]) && j + 1 < MAX_ESCC_LENGTH { DigitsClosed(s[1..], j + 1, Shift(n, s[0])); }
  }

  lemma {:induction false} ArgsClosed(s: string, j: nat, k: nat)
    requires Closed(s)
    ensures var r := ScanArgs(s, j, k); r.Scanned? ==> Closed(r.rest)
    decreases k
  {
    if k > 0 && s[0] == ';' {
      DigitsClosed(s[1..], j, ESCC_ARG_UNUSED);
      var d := ScanDigits(s[1..], j, ESCC_ARG_UNUSED);
      if d.Scanned? { ArgsClosed(d.rest, d.j, k - 1); }
    } else if k > 0 {
      ArgsClosed(s, j, k - 1);
    }
  }

  // ----- the scanner -----

  function CharAt(text: string, s: nat): (c: char)
    ensures s <= |text| ==> c == Head(text[s..])
  {
    if s < |text| then text[s] else NUL
  }

  /** The inner loop over the digits of one argument.  At the limit it stops without looking at the text. */
  method ReadDigits(text: string, s0: nat, j0: nat, c0: char) returns (s: nat, j: nat, c: char, n: int)
    requires s0 <= |text| || j0 + 1 >= MAX_ESCC_LENGTH
    ensures j0 + 1 >= MAX_ESCC_LENGTH ==> j >= MAX_ESCC_LENGTH
    ensures s0 <= |text| ==>
      var r := ScanDigits(text[s0..], j0, ESCC_ARG_UNUSED);
      && (r.TooLong? <==> j >= MAX_ESCC_LENGTH)
      && (r.Scanned? ==> s <= |text| && text[s..] == r.rest && j == r.j && n == r.n && c == Head(r.rest))
  {
    s, j, c, n := s0, j0, c0, ESCC_ARG_UNUSED;
    while true
      invariant s <= |text| || j + 1 >= MAX_ESCC_LENGTH
      invariant s0 <= |text| ==>
        s <= |text| && ScanDigits(text[s0..], j0, ESCC_ARG_UNUSED) == ScanDigits(text[s..], j, n)
      invariant j0 <= j
      decreases |text| - s
    {
      j := j + 1;
      if !(j < MAX_ESCC_LENGTH) { break; }
      c := CharAt(text, s);
      if !('0' <= c <= '9') { break; }
      if n == ESCC_ARG_UNUSED { n := 0; }
      n := Wrap32(10 * n + (c as int - '0' as int));
      assert text[s..][1..] == text[s + 1..];
      s := s + 1;
    }
  }

  ghost function Prepend(ns: seq<int>, r: Scan<seq<int>>): Scan<seq<int>> {
    if r.TooLong? then TooLong else Scanned(r.rest, r.j, ns + r.n)
  }

  lemma PrependNone(r: Scan<seq<int>>)
    ensures Prepend([], r) == r
  {
    if r.Scanned? { assert [] + r.n == r.n; }
  }

  lemma PrependBefore(ns: seq<int>, n: int, r: Scan<seq<int>>)
    ensures Prepend(ns, Before(n, r)) == Prepend(ns + [n], r)
  {
    if r.Scanned? { assert ns + ([n] + r.n) == ns + [n] + r.n; }
  }

  /** The loop over the arguments. */
  method ReadArgs(text: string, s0: nat, cmdlen: nat, c0: char) returns (s: nat, j: nat, c: char, n: seq<int>)
    requires s0 <= |text| && c0 == Head(text[s0..]) && cmdlen <= 2
    ensures |n| == MAX_ARG_COUNT
    ensures var r := ScanArgs(text[s0..], cmdlen, MAX_ARG_COUNT);
      && (r.TooLong? <==> j >= MAX_ESCC_LENGTH)
      && (r.Scanned? ==> s <= |text| && text[s..] == r.rest && n == r.n && c == Head(r.rest))
  {
    hide ScanDigits;
    s, j, c, n := s0, cmdlen, c0, [];
    ghost var r := ScanArgs(text[s0..], cmdlen, MAX_ARG_COUNT);
    PrependNone(r);
    for i := 0 to MAX_ARG_COUNT
      invariant |n| == i
      invariant if j >= MAX_ESCC_LENGTH then r.TooLong?
        else s <= |text| && c == Head(text[s..]) && r == Prepend(n, ScanArgs(text[s..], j, MAX_ARG_COUNT - i))
    {
      var ni := ESCC_ARG_UNUSED;
      ghost var left := if j < MAX_ESCC_LENGTH then text[s..] else "";
      if c == ';' {
        if j < MAX_ESCC_LENGTH { assert left[1..] == text[s + 1..]; }
        s := s + 1;
        s, j, c, ni := ReadDigits(text, s, j, c);
        if j < MAX_ESCC_LENGTH { PrependBefore(n, ni, ScanArgs(text[s..], j, MAX_ARG_COUNT - i - 1)); }
      } else if j < MAX_ESCC_LENGTH {
        PrependBefore(n, ni, ScanArgs(left, j, MAX_ARG_COUNT - i - 1));
      }
      n := n + [ni];
    }
  }

  /** escc_get on the text from `str` on; the arguments keep their values where they are not set. */
  method EsccGet(text: string, str: nat, args: Args) returns (cmd: int, str': nat, args': Args)
    requires str <= |text|
    ensures var r := Parse(text[str..]);
      && cmd == r.cmd && str' == str + r.used
      && args' == if r.args.Some? then r.args.value else args
  {
    hide ScanArgs, ScanDigits, Command, Defaults;
    cmd, str', args' := ESCC_INVALID, str, args;
    var s := str;
    if CharAt(text, s) == NUL { return ESCC_INCOMPLETE, str', args'; }
    if text[s] == '[' {
      var c, cmdlen, start;
      start := s + 1;
      s, c, cmdlen := ReadCode(text, start);
      assert text[str..][1..] == text[start..] && text[str..][1 + cmdlen..] == text[s..];
      assert text[str..][1..1 + cmdlen] == text[start..start + cmdlen];
      var j, n;
      s, j, c, n := ReadArgs(text, s, cmdlen, c);
      if j >= MAX_ESCC_LENGTH { return ESCC_INVALID, str', args'; }
      args' := Args(n[0], n[1], n[2]);
      if c == NUL { return ESCC_INCOMPLETE, str', args'; }
      str' := s + 1;
      if cmdlen == 0 || c != ']' { return ESCC_INVALID, str', args'; }
      cmd := Command(text[start..start + cmdlen]);
      args' := Defaults(cmd, args');
    }
  }

  /** The loop over the code. */
  method ReadCode(text: string, start: nat) returns (s: nat, c: char, cmdlen: nat)
    requires start <= |text|
    ensures cmdlen == CodeLen(text[start..]) && s == start + cmdlen <= |text| && c == Head(text[s..])
  {
    s, cmdlen := start, 0;
    c := CharAt(text, s);
    while c != NUL && cmdlen < 2 && c != ';' && c != ']'
      invariant cmdlen <= 2 && s == start + cmdlen <= |text| && c == Head(text[s..])
      invariant forall i | start <= i < s :: CodeChar(text[i])
      decreases 2 - cmdlen
    {
      s := s + 1;
      cmdlen := cmdlen + 1;
      c := CharAt(text, s);
    }
    assert cmdlen > 0 ==> text[start..][1..] == text[start + 1..];
  }
}
