/** The sequence-number server with its backup file: responses, backup writes,
    crashes at any point, and restarts. */
module SeqNumServer {
  import Bits

  const BUF_LEN: nat := 21
  const INT_MAX := 0x7fff_ffff
  const INT_MIN := -0x8000_0000
  const NUL: char := '\0'

  // ----- the number in the backup file

  function DigitChar(d: int): char
    requires 0 <= d < 10
  {
    '0' + d as char
  }

  predicate IsDigit(c: char) { '0' <= c <= '9' }

  function Digits(n: nat): (r: string)
    ensures |r| > 0 && forall i :: 0 <= i < |r| ==> IsDigit(r[i])
  {
    if n < 10 then [DigitChar(n)] else Digits(n / 10) + [DigitChar(n % 10)]
  }

  /** printf's "%d" */
  function Decimal(n: int): string {
    if n < 0 then "-" + Digits(-n) else Digits(n)
  }

  function ReadDigits(s: string, acc: nat): nat
    decreases |s|
  {
    if s != [] && IsDigit(s[0]) then ReadDigits(s[1..], 10 * acc + (s[0] - '0') as int) else acc
  }

  predicate IsSpace(c: char) { c == ' ' || '\t' <= c <= '\r' }

  /** strtol in base 10: spaces, a sign, digits up to the first other character. */
  function Strtol(s: string): int
    decreases |s|
  {
    if s == [] then 0
    else if IsSpace(s[0]) then Strtol(s[1..])
    else if s[0] == '-' then -(ReadDigits(s[1..], 0) as int)
    else if s[0] == '+' then ReadDigits(s[1..], 0)
    else ReadDigits(s, 0)
  }

  lemma {:induction false} DigitsReadBack(n: nat, rest: string)
    ensures ReadDigits(Digits(n) + rest, 0) == ReadDigits(rest, n)
    decreases n
  {
    if n < 10 {
      var s := Digits(n) + rest;
      assert s[0] == DigitChar(n) && s[1..] == rest;
    } else {
      var s := [DigitChar(n % 10)] + rest;
      DigitsReadBack(n / 10, s);
      assert Digits(n) + rest == Digits(n / 10) + s;
      assert s[1..] == rest;
    }
  }

  function Pow10(k: nat): nat { if k == 0 then 1 else 10 * Pow10(k - 1) }

  lemma {:induction false} DigitsShort(n: nat, k: nat)
    requires k > 0 && n < Pow10(k)
    ensures |Digits(n)| <= k
    decreases k
  {
    if n >= 10 { DigitsShort(n / 10, k - 1); }
  }

  lemma DivTen(n: nat, p: nat)
    requires p > 0
    ensures (n / 10) / p == n / (10 * p)
  {
    var q, r := (n / 10) / p, (n / 10) % p;
    assert n / 10 == q * p + r;
    assert q * (10 * p) == 10 * (q * p) by { TenTimes(q, p); }
    Bits.DivIs(n, 10 * p, q, 10 * r + n % 10);
  }

  lemma TenTimes(q: nat, p: nat)
    ensures q * (10 * p) == 10 * (q * p)
  {
  }

  /** The text of a number: its decimal digits, the last one standing for the ones, without leading zero. */
  lemma {:induction false} DigitsAre(n: nat, i: nat)
    requires i < |Digits(n)|
    ensures Pow10(i) > 0
    ensures Digits(n)[|Digits(n)| - 1 - i] as int == '0' as int + (n / Pow10(i)) % 10
    ensures n < 10 ==> |Digits(n)| == 1
    ensures n >= 10 ==> Digits(n)[0] != '0'
    decreases n
  {
    Pow10Positive(i);
    if n >= 10 {
      DigitsAre(n / 10, if i == 0 then 0 else i - 1);
      if i > 0 {
        Pow10Positive(i - 1);
        DivTen(n, Pow10(i - 1));
      }
    }
  }

  lemma {:induction false} Pow10Positive(i: nat)
    ensures Pow10(i) > 0
  {
    if i > 0 { Pow10Positive(i - 1); }
  }

  lemma DecimalFits(n: int)
    requires INT_MIN <= n <= INT_MAX
    ensures |Decimal(n)| < BUF_LEN
  {
    assert Pow10(10) == 10 * Pow10(9) && Pow10(9) == 10 * Pow10(8) && Pow10(8) == 10 * Pow10(7) && Pow10(7) == 10 * Pow10(6);
    assert Pow10(6) == 10 * Pow10(5) && Pow10(5) == 10 * Pow10(4) && Pow10(4) == 10 * Pow10(3) && Pow10(3) == 1000;
    DigitsShort(if n < 0 then -n else n, 10);
  }

  /** snprintf into the reused buffer: text, terminator, and what was there before. */
  function Snprintf(buf: string, n: int): (r: string)
    requires |buf| == BUF_LEN && INT_MIN <= n <= INT_MAX
    ensures |r| == BUF_LEN
  {
    DecimalFits(n);
    Decimal(n) + [NUL] + buf[|Decimal(n)| + 1..]
  }

  /** What the server wrote is what it reads back, whatever else is in the buffer. */
  lemma BackupRoundTrip(buf: string, n: int)
    requires |buf| == BUF_LEN && INT_MIN <= n <= INT_MAX
    ensures Strtol(Snprintf(buf, n)) == n
  {
    DecimalFits(n);
    var rest := [NUL] + buf[|Decimal(n)| + 1..];
    assert Snprintf(buf, n) == Decimal(n) + rest;
    StrtolReads(n, rest);
  }

  lemma StrtolReads(n: int, rest: string)
    requires rest != [] && !IsDigit(rest[0])
    ensures Strtol(Decimal(n) + rest) == n
  {
    hide Strtol, ReadDigits;
    var m: nat := if n < 0 then -n else n;
    DigitsReadBack(m, rest);
    var t := Digits(m) + rest;
    assert IsDigit(t[0]);
    StrtolSigned(t);
    assert ReadDigits(t, 0) == m by { StopReading(rest, m); }
    if n < 0 {
      assert Decimal(n) + rest == ['-'] + t;
    }
  }

  lemma StopReading(s: string, acc: nat)
    requires s == [] || !IsDigit(s[0])
    ensures ReadDigits(s, acc) == acc
  {
  }

  lemma StrtolSigned(t: string)
    requires t != [] && IsDigit(t[0])
    ensures Strtol(t) == ReadDigits(t, 0) && Strtol(['-'] + t) == -(ReadDigits(t, 0) as int)
  {
    assert (['-'] + t)[1..] == t;
  }

  // ----- the server

  /** Between requests, answered but not yet counted, or counted but not yet written. */
  datatype Pc = Idle | Answered(len: int) | Formatted

  /** A response: the range handed out, and whether a crash hit before its backup write. */
  datatype Response = Response(start: int, len: int, lost: bool)

  datatype State = State(up: bool, pc: Pc, seqNum: int, buf: string, file: string, sent: seq<Response>)

  datatype Event =
    | Boot(stack: string)     // start-up; the buffer begins with whatever the stack held
    | Request(len: int)       // read a request, open the client's FIFO, send the response
    | Skip                    // a request that cannot be read or whose FIFO cannot be opened
    | Count                   // seqNum += len, and format it
    | Write                   // rewrite the backup file
    | Crash

  predicate Legal(s: State, e: Event) {
    match e
    case Boot(stack) => !s.up && |stack| == BUF_LEN
    case Request(len) => s.up && s.pc == Idle && 0 < len && s.seqNum + len <= INT_MAX
    case Skip => s.up && s.pc == Idle
    case Count => s.up && s.pc.Answered? && |s.buf| == BUF_LEN && INT_MIN <= s.seqNum + s.pc.len <= INT_MAX
    case Write => s.up && s.pc == Formatted
    case Crash => s.up
  }

  /** read() of the backup file into the buffer. */
  function ReadInto(buf: string, file: string): string
    requires |buf| == BUF_LEN
  {
    if |file| >= BUF_LEN then file[..BUF_LEN] else file + buf[|file|..]
  }

  function LoseLast(sent: seq<Response>): seq<Response> {
    if sent == [] then [] else sent[|sent| - 1 := sent[|sent| - 1].(lost := true)]
  }

  function Apply(s: State, e: Event): State
    requires Legal(s, e)
  {
    match e
    case Boot(stack) =>
      var b := ReadInto(stack, s.file);
      s.(up := true, pc := Idle, buf := b, seqNum := if s.file == [] then 0 else Strtol(b))
    case Request(len) => s.(pc := Answered(len), sent := s.sent + [Response(s.seqNum, len, false)])
    case Skip => s
    case Count => s.(pc := Formatted, seqNum := s.seqNum + s.pc.len, buf := Snprintf(s.buf, s.seqNum + s.pc.len))
    case Write => s.(pc := Idle, file := s.buf)
    case Crash => s.(up := false, pc := Idle, sent := if s.pc == Idle then s.sent else LoseLast(s.sent))
  }

  predicate LegalRun(s: State, es: seq<Event>)
    decreases |es|
  {
    es == [] || (Legal(s, es[0]) && LegalRun(Apply(s, es[0]), es[1..]))
  }

  function Run(s: State, es: seq<Event>): State
    requires LegalRun(s, es)
    decreases |es|
  {
    if es == [] then s else Run(Apply(s, es[0]), es[1..])
  }

  // ----- the invariant

  function End(r: Response): int { r.start + r.len }

  /** The number a restart would begin with. */
  function Saved(s: State): int { if s.file == [] then 0 else Strtol(s.file) }

  /** The last response is still unsaved. */
  predicate Unsaved(s: State) { s.up && s.pc != Idle }

  ghost predicate FileOk(s: State) {
    && (s.file == [] || |s.file| == BUF_LEN)
    && 0 <= Saved(s) <= INT_MAX
  }

  ghost predicate PcOk(s: State) {
    s.up ==>
      && |s.buf| == BUF_LEN
      && (match s.pc
          case Idle => s.seqNum == Saved(s)
          case Answered(len) => s.sent != [] && s.seqNum == Saved(s) && s.sent[|s.sent| - 1] == Response(Saved(s), len, false)
                                && 0 < len && s.seqNum + len <= INT_MAX
          case Formatted => s.sent != [] && s.sent[|s.sent| - 1] == Response(Saved(s), s.seqNum - Saved(s), false)
                            && Saved(s) < s.seqNum <= INT_MAX && Strtol(s.buf) == s.seqNum)
  }

  /** All responses but an unsaved last one lie below the saved number, lost ones start there at most. */
  ghost predicate SentOk(s: State) {
    && (forall i :: 0 <= i < |s.sent| ==> s.sent[i].len > 0 && s.sent[i].start <= Saved(s))
    && (forall i :: 0 <= i < |s.sent| && !s.sent[i].lost && !(Unsaved(s) && i == |s.sent| - 1) ==> End(s.sent[i]) <= Saved(s))
    && (s.sent != [] && s.sent[|s.sent| - 1].lost ==> s.sent[|s.sent| - 1].start == Saved(s))
  }

  /** A response that was saved is passed by all later ones; after a lost one the next starts again. */
  ghost predicate OrderOk(sent: seq<Response>) {
    && (forall i, j :: 0 <= i < j < |sent| && !sent[i].lost ==> End(sent[i]) <= sent[j].start)
    && (forall i {:trigger sent[i].lost} :: 0 <= i < |sent| - 1 && sent[i].lost ==> sent[i + 1].start == sent[i].start)
  }

  ghost predicate Inv(s: State) {
    FileOk(s) && PcOk(s) && SentOk(s) && OrderOk(s.sent)
  }

  lemma RequestInv(s: State, len: int)
    requires Inv(s) && Legal(s, Request(len))
    ensures Inv(Apply(s, Request(len)))
  {
    hide Strtol;
  }

  lemma CrashInv(s: State)
    requires Inv(s) && s.up
    ensures Inv(Apply(s, Crash))
  {
    hide Strtol;
  }

  lemma WriteInv(s: State)
    requires Inv(s) && Legal(s, Write)
    ensures Inv(Apply(s, Write))
  {
    hide Strtol;
  }

  lemma StepInv(s: State, e: Event)
    requires Inv(s) && Legal(s, e)
    ensures Inv(Apply(s, e))
  {
    hide Strtol, Decimal, Snprintf, OrderOk;
    match e
    case Boot(stack) => assert s.file == [] || ReadInto(stack, s.file) == s.file;
    case Request(len) => RequestInv(s, len);
    case Skip =>
    case Count => BackupRoundTrip(s.buf, s.seqNum + s.pc.len);
    case Write => WriteInv(s);
    case Crash => CrashInv(s);
  }

  lemma {:induction false} RunInv(s: State, es: seq<Event>)
    requires Inv(s) && LegalRun(s, es)
    ensures Inv(Run(s, es))
    decreases |es|
  {
    hide Inv, Legal, Apply;
    if es != [] {
      StepInv(s, es[0]);
      RunInv(Apply(s, es[0]), es[1..]);
    }
  }

  /** A run is its events one after the other. */
  lemma {:induction false} RunSnoc(s: State, es: seq<Event>, e: Event)
    ensures LegalRun(s, []) && Run(s, []) == s
    ensures LegalRun(s, es + [e]) <==> LegalRun(s, es) && Legal(Run(s, es), e)
    ensures LegalRun(s, es + [e]) ==> Run(s, es + [e]) == Apply(Run(s, es), e)
    decreases |es|
  {
    hide Legal, Apply;
    if es == [] {
      assert es + [e] == [e] && [e][1..] == [];
    } else {
      assert (es + [e])[0] == es[0] && (es + [e])[1..] == es[1..] + [e];
      if Legal(s, es[0]) { RunSnoc(Apply(s, es[0]), es[1..], e); }
    }
  }

  /** The lengths asked for in a run. */
  function Asked(es: seq<Event>): seq<int> {
    if es == [] then [] else (if es[0].Request? then [es[0].len] else []) + Asked(es[1..])
  }

  function Lengths(sent: seq<Response>): seq<int> { seq(|sent|, i requires 0 <= i < |sent| => sent[i].len) }

  /** Every request gets one response, in order, with the length it asked for. */
  lemma {:induction false} AnsweredAsAsked(s: State, es: seq<Event>)
    requires LegalRun(s, es)
    ensures Lengths(Run(s, es).sent) == Lengths(s.sent) + Asked(es)
    decreases |es|
  {
    hide Legal, Apply;
    if es != [] {
      AnsweredAsAsked(Apply(s, es[0]), es[1..]);
      StepLengths(s, es[0]);
    }
  }

  lemma StepLengths(s: State, e: Event)
    requires Legal(s, e)
    ensures Lengths(Apply(s, e).sent) == Lengths(s.sent) + (if e.Request? then [e.len] else [])
  {
    hide Strtol, Snprintf, ReadInto;
  }

  // ----- the theorem

  predicate Overlap(a: Response, b: Response) {
    a.start < End(b) && b.start < End(a)
  }

  /** Before the first start: an empty backup file, or one the server wrote earlier. */
  ghost predicate Stopped(s: State) {
    !s.up && s.sent == [] && FileOk(s)
  }

  /** Over every run with crashes and restarts: ranges overlap only if the earlier response
      was lost to a crash before its backup write, and then the next response repeats it. */
  lemma OverlapOnlyAfterLoss(s: State, es: seq<Event>, i: nat, j: nat)
    requires Stopped(s) && LegalRun(s, es) && i < j < |Run(s, es).sent|
    ensures var sent := Run(s, es).sent;
      && (Overlap(sent[i], sent[j]) ==> sent[i].lost)
      && (j == i + 1 ==> (Overlap(sent[i], sent[j]) <==> sent[i].lost))
      && (sent[i].lost ==> sent[i + 1].start == sent[i].start)
  {
    hide Run, LegalRun;
    RunInv(s, es);
  }

  lemma StepConsecutive(s: State, e: Event)
    requires Inv(s) && Legal(s, e) && e != Crash && Consecutive(s)
    ensures Consecutive(Apply(s, e))
  {
    hide Strtol, Decimal, Snprintf, OrderOk;
    if e.Write? { assert Saved(Apply(s, e)) == s.seqNum; }
  }

  /** A run without crashes hands out consecutive ranges, from 0. */
  lemma {:induction false} NoCrashNoGap(s: State, es: seq<Event>)
    requires Inv(s) && LegalRun(s, es) && (forall i :: 0 <= i < |es| ==> es[i] != Crash)
    requires Consecutive(s)
    ensures Consecutive(Run(s, es))
    decreases |es|
  {
    hide Inv, Legal, Apply, Consecutive;
    if es != [] {
      StepInv(s, es[0]);
      StepConsecutive(s, es[0]);
      NoCrashNoGap(Apply(s, es[0]), es[1..]);
    }
  }

  ghost predicate Consecutive(s: State) {
    && (forall i :: 0 <= i < |s.sent| - 1 ==> s.sent[i + 1].start == End(s.sent[i]))
    && (s.sent != [] ==> s.sent[0].start == 0)
    && (if s.sent == [] then Saved(s) == 0
        else if Unsaved(s) then Saved(s) == s.sent[|s.sent| - 1].start
        else Saved(s) == End(s.sent[|s.sent| - 1]))
  }
}
