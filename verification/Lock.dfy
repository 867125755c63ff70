// The advisory write lock: a file naming its holder's process, reclaimed when that is dead.
module Lock {
  import opened Results
  import opened Strings

  const U32_MAX: nat := 0xFFFF_FFFF
  const U64_MAX: nat := 0xFFFF_FFFF_FFFF_FFFF

  datatype LockInfo = LockInfo(pid: nat, startEpoch: nat)

  // ---- the file's text -------------------------------------------------------------

  function Digit(d: nat): char
    requires d < 10
  {
    d as char + '0'
  }

  predicate IsDigit(c: char) {
    '0' <= c <= '9'
  }

  function ToDecimal(n: nat): string {
    if n < 10 then [Digit(n)] else ToDecimal(n / 10) + [Digit(n % 10)]
  }

  // The number a run of digits denotes.
  function Value(s: string): nat {
    if s == [] then 0 else Value(s[..|s| - 1]) * 10 + DigitValue(s[|s| - 1])
  }

  function DigitValue(c: char): nat {
    if IsDigit(c) then (c - '0') as nat else 0
  }

  // Parsing an unsigned integer: an optional plus sign, digits, and no overflow.
  function ParseUnsigned(s: string, max: nat): Option<nat> {
    var digits := if s != [] && s[0] == '+' then s[1..] else s;
    if digits == [] || (exists c | c in digits :: !IsDigit(c)) then None
    else if Value(digits) > max then None
    else Some(Value(digits))
  }

  // Lines end with "\n" or "\r\n"; the last one may end with the text.
  function Lines(s: string): seq<string> {
    if s == [] then [] else LinesFrom([], s)
  }

  function LinesFrom(line: string, s: string): seq<string>
    decreases |s|
  {
    if s == [] then [line]
    else if s[0] == '\n' then [WithoutReturn(line)] + (if s[1..] == [] then [] else LinesFrom([], s[1..]))
    else LinesFrom(line + [s[0]], s[1..])
  }

  function WithoutReturn(line: string): string {
    if line != [] && line[|line| - 1] == '\r' then line[..|line| - 1] else line
  }

  function StripPrefix(line: string, prefix: string): Option<string> {
    if prefix <= line then Some(line[|prefix|..]) else None
  }

  const PID_KEY := "pid="
  const START_KEY := "start_epoch="

  function Encode(info: LockInfo): string {
    PID_KEY + ToDecimal(info.pid) + "\n" + START_KEY + ToDecimal(info.startEpoch) + "\n"
  }

  // What one line makes of the two values read so far.
  function ReadLine(line: string, soFar: (Option<nat>, Option<nat>)): (Option<nat>, Option<nat>) {
    match StripPrefix(line, PID_KEY)
    case Some(v) => (ParseUnsigned(Trim(v), U32_MAX), soFar.1)
    case None =>
      match StripPrefix(line, START_KEY)
      case Some(v) => (soFar.0, ParseUnsigned(Trim(v), U64_MAX))
      case None => soFar
  }

  function ReadLines(lines: seq<string>, soFar: (Option<nat>, Option<nat>)): (Option<nat>, Option<nat>)
    decreases |lines|
  {
    if lines == [] then soFar else ReadLines(lines[1..], ReadLine(lines[0], soFar))
  }

  function Parse(contents: string): Option<LockInfo> {
    var (pid, start) := ReadLines(Lines(contents), (None, None));
    if pid.None? then None else Some(LockInfo(pid.value, if start.Some? then start.value else 0))
  }

  method ParseLock(contents: string) returns (r: Option<LockInfo>)
    ensures r == Parse(contents)
  {
    var pid: Option<nat>, start: Option<nat> := None, None;
    var lines := Lines(contents);
    for i := 0 to |lines|
      invariant ReadLines(lines[i..], (pid, start)) == ReadLines(lines, (None, None))
    {
      assert lines[i..][1..] == lines[i + 1..];
      var line := lines[i];
      var v := StripPrefix(line, PID_KEY);
      if v.Some? {
        pid := ParseUnsigned(Trim(v.value), U32_MAX);
      } else {
        v := StripPrefix(line, START_KEY);
        if v.Some? {
          start := ParseUnsigned(Trim(v.value), U64_MAX);
        }
      }
    }
    r := if pid.None? then None else Some(LockInfo(pid.value, if start.Some? then start.value else 0));
  }

  // ---- round trip --------------------------------------------------------------------

  lemma {:induction false} DecimalValue(n: nat)
    ensures ToDecimal(n) != []
    ensures forall c | c in ToDecimal(n) :: IsDigit(c)
    ensures Value(ToDecimal(n)) == n
  {
    if n < 10 {
      assert Value([]) == 0 && [Digit(n)][..0] == [];
    } else {
      DecimalValue(n / 10);
      var s := ToDecimal(n);
      assert s[..|s| - 1] == ToDecimal(n / 10);
    }
  }

  lemma DigitsParse(n: nat, max: nat)
    requires n <= max
    ensures ParseUnsigned(Trim(ToDecimal(n)), max) == Some(n)
  {
    hide IsSpace, IsDigit, Value;
    DecimalValue(n);
    var s := ToDecimal(n);
    assert s[0] in s && s[|s| - 1] in s;
    DigitIsPlain(s[0]);
    DigitIsPlain(s[|s| - 1]);
  }

  lemma DigitIsPlain(c: char)
    requires IsDigit(c)
    ensures !IsSpace(c) && c != '+'
  {
  }

  lemma {:induction false} LineOfPlainText(line: string, a: string, rest: string)
    requires '\n' !in a
    ensures LinesFrom(line, a + "\n" + rest)
            == [WithoutReturn(line + a)] + (if rest == [] then [] else LinesFrom([], rest))
    decreases |a|
  {
    var s := a + "\n" + rest;
    if a == [] {
      assert s == "\n" + rest && s[1..] == rest && line + a == line;
    } else {
      assert s[1..] == a[1..] + "\n" + rest;
      assert forall c | c in a[1..] :: c in a;
      LineOfPlainText(line + [a[0]], a[1..], rest);
      assert (line + [a[0]]) + a[1..] == line + a;
    }
  }

  lemma KeyLine(key: string, n: nat)
    requires '\n' !in key
    ensures '\n' !in key + ToDecimal(n) && WithoutReturn(key + ToDecimal(n)) == key + ToDecimal(n)
    ensures StripPrefix(key + ToDecimal(n), key) == Some(ToDecimal(n))
  {
    DecimalValue(n);
    var s := ToDecimal(n);
    assert s[|s| - 1] in s;
    assert (key + s)[|key + s| - 1] == s[|s| - 1];
  }

  lemma EncodedLines(info: LockInfo)
    ensures Lines(Encode(info)) == [PID_KEY + ToDecimal(info.pid), START_KEY + ToDecimal(info.startEpoch)]
  {
    hide ToDecimal, LinesFrom, WithoutReturn, StripPrefix;
    var first, second := PID_KEY + ToDecimal(info.pid), START_KEY + ToDecimal(info.startEpoch);
    KeyLine(PID_KEY, info.pid);
    KeyLine(START_KEY, info.startEpoch);
    LineOfPlainText([], first, second + "\n");
    LineOfPlainText([], second, []);
    assert second + "\n" + [] == second + "\n";
    assert Encode(info) == first + "\n" + (second + "\n");
    assert [] + first == first && [] + second == second;
  }

  lemma ParseUndoesEncode(info: LockInfo)
    requires info.pid <= U32_MAX && info.startEpoch <= U64_MAX
    ensures Parse(Encode(info)) == Some(info)
  {
    EncodedLines(info);
    KeyLine(PID_KEY, info.pid);
    KeyLine(START_KEY, info.startEpoch);
    DigitsParse(info.pid, U32_MAX);
    DigitsParse(info.startEpoch, U64_MAX);
    var first, second := PID_KEY + ToDecimal(info.pid), START_KEY + ToDecimal(info.startEpoch);
    assert second[0] == START_KEY[0] == 's' && PID_KEY[0] == 'p';
    assert !(PID_KEY <= second);
    var one := ReadLine(first, (None, None));
    assert one == (Some(info.pid), None);
    assert ReadLine(second, one) == (Some(info.pid), Some(info.startEpoch));
    var lines: seq<string> := [first, second];
    var last: seq<string> := [second];
    assert lines[1..] == last && |last[1..]| == 0;
    var two := ReadLine(second, one);
    assert ReadLines(last[1..], two) == two;
    assert ReadLines(last, one) == two;
    assert ReadLines(lines, (None, None)) == two;
  }

  // ---- what the text may be ------------------------------------------------------------

  lemma EncodedText()
    ensures Encode(LockInfo(70, 9)) == "pid=70\nstart_epoch=9\n"
  {
    assert ToDecimal(7) == "7" && ToDecimal(70) == ToDecimal(7) + "0" == "70" && ToDecimal(9) == "9";
    hide ToDecimal;
    var first, second := PID_KEY + "70" + "\n", START_KEY + "9" + "\n";
    assert first == "pid=70\n" && second == "start_epoch=9\n";
    assert Encode(LockInfo(70, 9)) == first + second;
  }

  function Zeros(k: nat): string {
    seq(k, _ => '0')
  }

  lemma {:induction false} ZerosCount(k: nat, s: string)
    ensures Value(Zeros(k) + s) == Value(s)
    decreases |s|, k
  {
    var all := Zeros(k) + s;
    if s != [] {
      assert all[..|all| - 1] == Zeros(k) + s[..|s| - 1];
      ZerosCount(k, s[..|s| - 1]);
    } else if k > 0 {
      assert all == Zeros(k) && all[..k - 1] == Zeros(k - 1) + [];
      ZerosCount(k - 1, s);
    }
  }

  // Digits are the decimal form of their value behind zeros.
  lemma {:induction false} LeadingZeros(s: string)
    requires s != [] && forall c | c in s :: IsDigit(c)
    ensures exists k: nat :: s == Zeros(k) + ToDecimal(Value(s))
  {
    hide Value, ToDecimal, IsDigit;
    var front, last := s[..|s| - 1], s[|s| - 1];
    assert s == front + [last] && last in s;
    if front == [] {
      OneMoreDigit(0, last);
      assert s == Zeros(0) + [last];
      ValueOfOne(front, last);
    } else {
      assert forall c | c in front :: c in s;
      LeadingZeros(front);
      var k: nat :| front == Zeros(k) + ToDecimal(Value(front));
      OneMoreDigit(Value(front), last);
      ValueOfOne(front, last);
      OneMoreZero(k, Value(front), last);
    }
  }

  lemma ValueOfOne(front: string, last: char)
    ensures Value(front + [last]) == Value(front) * 10 + DigitValue(last)
    ensures Value([]) == 0
  {
    assert (front + [last])[..|front|] == front;
  }

  lemma OneMoreDigit(n: nat, last: char)
    requires IsDigit(last)
    ensures ToDecimal(n * 10 + DigitValue(last)) == (if n == 0 then [] else ToDecimal(n)) + [last]
    ensures n == 0 ==> ToDecimal(n) == "0"
  {
    var d := DigitValue(last);
    assert d < 10 && Digit(d) == last;
    assert (n * 10 + d) / 10 == n && (n * 10 + d) % 10 == d;
    assert n == 0 ==> ToDecimal(d) == [last] && [] + [last] == [last];
  }

  lemma OneMoreZero(k: nat, n: nat, last: char)
    requires IsDigit(last)
    ensures exists j: nat :: (Zeros(k) + ToDecimal(n)) + [last] == Zeros(j) + ToDecimal(n * 10 + DigitValue(last))
  {
    hide ToDecimal, IsDigit;
    OneMoreDigit(n, last);
    if n == 0 {
      assert Zeros(k + 1) == Zeros(k) + "0";
      assert (Zeros(k) + ToDecimal(n)) + [last] == Zeros(k + 1) + ToDecimal(n * 10 + DigitValue(last));
    } else {
      assert (Zeros(k) + ToDecimal(n)) + [last] == Zeros(k) + ToDecimal(n * 10 + DigitValue(last));
    }
  }

  // A number that is read: its decimal form behind any zeros and at most one plus sign, and no
  // more than the type holds. Everything else is no number.
  lemma ParseUnsignedExactly(s: string, max: nat, n: nat)
    ensures ParseUnsigned(s, max) == Some(n) <==>
              n <= max && exists k: nat :: s == Zeros(k) + ToDecimal(n) || s == "+" + (Zeros(k) + ToDecimal(n))
  {
    hide Value, ToDecimal;
    var digits := if s != [] && s[0] == '+' then s[1..] else s;
    if ParseUnsigned(s, max) == Some(n) {
      LeadingZeros(digits);
    }
    DecimalValue(n);
    forall k: nat | s == Zeros(k) + ToDecimal(n) || s == "+" + (Zeros(k) + ToDecimal(n))
      ensures digits == Zeros(k) + ToDecimal(n) && digits != [] && Value(digits) == n
      ensures forall c | c in digits :: IsDigit(c)
    {
      ZerosCount(k, ToDecimal(n));
      var plain := Zeros(k) + ToDecimal(n);
      assert forall c | c in plain :: c in Zeros(k) || c in ToDecimal(n);
      assert plain[0] in plain && IsDigit(plain[0]);
      assert ("+" + plain)[1..] == plain;
    }
  }

  // Of the lines that begin with a key the last one counts, even when it is no number; and a line
  // that begins with the first key is not looked at for the second.
  lemma {:induction false} LastLineCounts(lines: seq<string>, line: string, soFar: (Option<nat>, Option<nat>))
    ensures var before, r := ReadLines(lines, soFar), ReadLines(lines + [line], soFar);
            if "pid=" <= line then r == (ParseUnsigned(Trim(line[4..]), 4_294_967_295), before.1)
            else if "start_epoch=" <= line
            then r == (before.0, ParseUnsigned(Trim(line[12..]), 18_446_744_073_709_551_615))
            else r == before
    decreases |lines|
  {
    if lines == [] {
      assert (lines + [line])[1..] == [] && (lines + [line])[0] == line;
      assert ReadLines([], ReadLine(line, soFar)) == ReadLine(line, soFar);
    } else {
      hide ReadLine;
      assert (lines + [line])[1..] == lines[1..] + [line];
      LastLineCounts(lines[1..], line, ReadLine(lines[0], soFar));
    }
  }

  // A line ends at a line feed, with a carriage return before it or not; what comes after the
  // last line feed is one more line, if it is anything.
  lemma LinesExactly(a: string, rest: string)
    requires '\n' !in a
    ensures Lines("") == [] && (a != [] ==> Lines(a) == [a])
    ensures Lines(a + "\n" + rest)
            == [if |a| > 0 && a[|a| - 1] == '\r' then a[..|a| - 1] else a] + Lines(rest)
  {
    hide LinesFrom;
    LastLine([], a);
    LineOfPlainText([], a, rest);
    assert [] + a == a;
  }

  lemma {:induction false} LastLine(line: string, a: string)
    requires '\n' !in a
    ensures LinesFrom(line, a) == [line + a]
    decreases |a|
  {
    if a == [] {
      assert line + a == line;
    } else {
      assert a[0] in a && forall c | c in a[1..] :: c in a;
      LastLine(line + [a[0]], a[1..]);
      assert (line + [a[0]]) + a[1..] == line + a;
    }
  }

  // ---- the protocol --------------------------------------------------------------------

  // `live` processes, the locks they hold, every pid handed out so far, and whether KeePassXC
  // has the vault open. A process may take the lock again: each time counts.
  datatype State = State(file: Option<string>, live: set<nat>, guards: multiset<nat>, used: set<nat>, keepass: bool)

  // `readable`: the lock file could be read; `left`: what a failed write of it leaves;
  // `removed`: it could be removed.
  datatype Action =
    | Start(pid: nat)
    | Acquire(pid: nat, epoch: nat, readable: bool, written: bool, left: Option<string>)
    | Release(pid: nat, removed: bool)
    | Crash(pid: nat)
    | KeePass(opens: bool)

  const INITIALLY := State(None, {}, multiset{}, {}, false)

  // The lock file names that process.
  predicate Names(file: Option<string>, pid: nat) {
    file.Some? && Parse(file.value).Some? && Parse(file.value).value.pid == pid
  }

  // Another live process is named in the lock file.
  predicate HeldByOther(s: State, pid: nat) {
    && s.file.Some? && Parse(s.file.value).Some?
    && Parse(s.file.value).value.pid != pid && Parse(s.file.value).value.pid in s.live
  }

  // The attempt is not refused: it goes on to write the lock file.
  predicate Proceeds(s: State, pid: nat, epoch: nat, readable: bool) {
    pid in s.live && epoch <= U64_MAX && !s.keepass && !(readable && HeldByOther(s, pid))
  }

  function Step(s: State, a: Action): State {
    match a
    case Start(pid) =>
      if pid in s.used || pid > U32_MAX then s else s.(live := s.live + {pid}, used := s.used + {pid})
    case Acquire(pid, epoch, readable, written, left) =>
      if !Proceeds(s, pid, epoch, readable) then s
      else if written then s.(file := Some(Encode(LockInfo(pid, epoch))), guards := s.guards + multiset{pid})
      else s.(file := left)
    case Release(pid, removed) =>
      if pid !in s.guards then s
      else s.(guards := s.guards - multiset{pid}, file := if removed then None else s.file)
    case Crash(pid) => s.(live := s.live - {pid}, guards := s.guards[pid := 0])
    case KeePass(opens) => s.(keepass := opens)
  }

  function Run(s: State, actions: seq<Action>): State
    decreases |actions|
  {
    if actions == [] then s else Run(Step(s, actions[0]), actions[1..])
  }

  // At most one process holds the lock; it is alive, and named in the file.
  predicate Exclusive(s: State) {
    && s.live <= s.used
    && (forall p | p in s.used :: p <= U32_MAX)
    && (forall p | p in s.guards :: p in s.live && Names(s.file, p))
  }

  lemma OneHolder(s: State, p: nat, q: nat)
    requires Exclusive(s) && p in s.guards && q in s.guards
    ensures p == q
  {
  }

  // A step that takes a holder's file away: an attempt that could not read it and overwrites
  // it, a failed write of a holder taking the lock again, or dropping one lock of two.
  predicate Undercuts(s: State, a: Action) {
    match a
    case Acquire(pid, epoch, readable, written, left) =>
      && Proceeds(s, pid, epoch, readable)
      && exists h | h in s.guards :: if written then h != pid else !Names(left, h)
    case Release(pid, removed) => s.guards[pid] > 1 && removed
    case _ => false
  }

  // These are exactly the steps that break exclusion.
  lemma StepKeepsExclusive(s: State, a: Action)
    requires Exclusive(s)
    ensures Exclusive(Step(s, a)) <==> !Undercuts(s, a)
  {
    hide Encode, Parse;
    match a {
      case Acquire(pid, epoch, readable, written, left) =>
        if Proceeds(s, pid, epoch, readable) {
          AcquireKeepsExclusive(s, a);
        }
      case Release(pid, removed) =>
        if pid in s.guards {
          ReleaseKeepsExclusive(s, a);
        }
      case Crash(pid) => assert forall p :: p in s.guards[pid := 0] <==> p in s.guards && p != pid;
      case _ =>
    }
  }

  lemma ReleaseKeepsExclusive(s: State, a: Action)
    requires Exclusive(s) && a.Release? && a.pid in s.guards
    ensures Exclusive(Step(s, a)) <==> !Undercuts(s, a)
  {
    hide Encode, Parse;
    assert forall p :: p in s.guards - multiset{a.pid} ==> p in s.guards;
    assert a.pid in s.guards - multiset{a.pid} <==> s.guards[a.pid] > 1;
  }

  lemma AcquireKeepsExclusive(s: State, a: Action)
    requires Exclusive(s) && a.Acquire? && Proceeds(s, a.pid, a.epoch, a.readable)
    ensures Exclusive(Step(s, a)) <==> !Undercuts(s, a)
  {
    hide Encode, Parse;
    ParseUndoesEncode(LockInfo(a.pid, a.epoch));
    assert forall p :: p in s.guards + multiset{a.pid} <==> p in s.guards || p == a.pid;
  }

  // ---- whole runs ----------------------------------------------------------------------------------

  // An attempt that can read the file, by a process that does not hold the lock.
  predicate Sound(s: State, a: Action) {
    a.Acquire? ==> a.readable && a.pid !in s.guards
  }

  predicate SoundAlong(s: State, actions: seq<Action>)
    decreases |actions|
  {
    actions != [] ==> Sound(s, actions[0]) && SoundAlong(Step(s, actions[0]), actions[1..])
  }

  predicate NoneTwice(s: State) {
    forall p | p in s.guards :: s.guards[p] == 1
  }

  lemma SoundStep(s: State, a: Action)
    requires Exclusive(s) && NoneTwice(s) && Sound(s, a)
    ensures Exclusive(Step(s, a)) && NoneTwice(Step(s, a))
  {
    hide Encode, Parse;
    StepKeepsExclusive(s, a);
    if h :| h in s.guards && a.Acquire? && h != a.pid {
      HolderRefuses(s, h, a.pid);
    }
  }

  lemma HolderRefuses(s: State, h: nat, pid: nat)
    requires Exclusive(s) && h in s.guards && h != pid
    ensures HeldByOther(s, pid)
  {
    hide Parse;
  }

  // Over every run in which processes that hold the lock do not take it again and attempts can
  // read the file, whatever writes and removals fail.
  lemma {:induction false} RunKeepsExclusive(s: State, actions: seq<Action>)
    requires Exclusive(s) && NoneTwice(s) && SoundAlong(s, actions)
    ensures Exclusive(Run(s, actions)) && NoneTwice(Run(s, actions))
    decreases |actions|
  {
    if actions != [] {
      SoundStep(s, actions[0]);
      RunKeepsExclusive(Step(s, actions[0]), actions[1..]);
    }
  }

  function Held(file: Option<string>, live: set<nat>, guards: multiset<nat>): State {
    State(file, live, guards, live, false)
  }

  function Take(pid: nat, epoch: nat, readable: bool): Action {
    Acquire(pid, epoch, readable, true, None)
  }

  function FileOf(pid: nat, epoch: nat): Option<string> {
    Some(Encode(LockInfo(pid, epoch)))
  }

  // The first condition is needed: after an attempt that cannot read the file, two processes
  // hold the lock.
  lemma UnreadableBreaks(epoch: nat)
    requires epoch <= U64_MAX
    ensures Run(INITIALLY, [Start(1), Take(1, epoch, true), Start(2), Take(2, epoch, false)]).guards == multiset{1, 2}
  {
    hide Encode, Parse, Run;
    FirstHolds(epoch);
    var held := Held(FileOf(1, epoch), {1}, multiset{1});
    var two := Step(held, Start(2));
    assert two.live == {1, 2} && two.guards == multiset{1} && !two.keepass;
    assert Step(two, Take(2, epoch, false)).guards == multiset{1} + multiset{2} == multiset{1, 2};
    RunOfFour(INITIALLY, Start(1), Take(1, epoch, true), Start(2), Take(2, epoch, false));
  }

  lemma FirstHolds(epoch: nat)
    requires epoch <= U64_MAX
    ensures Step(Step(INITIALLY, Start(1)), Take(1, epoch, true)) == Held(FileOf(1, epoch), {1}, multiset{1})
  {
    hide Encode, Parse;
    var started := Step(INITIALLY, Start(1));
    assert started == Held(None, {1}, multiset{});
    assert Step(started, Take(1, epoch, true)).guards == multiset{} + multiset{1} == multiset{1};
  }

  // So is the second: a process that takes the lock again and drops it once removes the file,
  // and the next one takes the lock beside it.
  lemma TwiceBreaks(epoch: nat)
    requires epoch <= U64_MAX
    ensures var again := [Start(1), Take(1, epoch, true), Take(1, epoch, true), Release(1, true)];
            Run(INITIALLY, again + [Start(2), Take(2, epoch, true)]).guards == multiset{1, 2}
  {
    hide Encode, Parse, Run;
    FirstHolds(epoch);
    ParseUndoesEncode(LockInfo(1, epoch));
    var take := Take(1, epoch, true);
    var held := Held(FileOf(1, epoch), {1}, multiset{1});
    var twice := Step(held, take);
    assert twice.guards == multiset{1} + multiset{1};
    var dropped := Step(twice, Release(1, true));
    assert dropped.guards == multiset{1} + multiset{1} - multiset{1} == multiset{1};
    assert dropped == Held(None, {1}, multiset{1});
    var two := Step(dropped, Start(2));
    assert Step(two, Take(2, epoch, true)).guards == multiset{1} + multiset{2} == multiset{1, 2};
    RunOfFour(INITIALLY, Start(1), take, take, Release(1, true));
    RunOfTwo(dropped, Start(2), Take(2, epoch, true));
    RunConcat(INITIALLY, [Start(1), take, take, Release(1, true)], [Start(2), Take(2, epoch, true)]);
  }

  lemma RunOfTwo(s: State, a: Action, b: Action)
    ensures Run(s, [a, b]) == Step(Step(s, a), b)
  {
    hide Step;
    assert [a, b][1..] == [b] && [b][1..] == [];
    assert Run(Step(s, a), [b]) == Run(Step(Step(s, a), b), []);
  }

  lemma RunOfFour(s: State, a: Action, b: Action, c: Action, d: Action)
    ensures Run(s, [a, b, c, d]) == Step(Step(Step(Step(s, a), b), c), d)
  {
    hide Step;
    RunConcat(s, [a, b], [c, d]);
    assert [a, b] + [c, d] == [a, b, c, d];
    RunOfTwo(s, a, b);
    RunOfTwo(Step(Step(s, a), b), c, d);
  }

  lemma {:induction false} RunConcat(s: State, first: seq<Action>, then_: seq<Action>)
    ensures Run(s, first + then_) == Run(Run(s, first), then_)
    decreases |first|
  {
    hide Step;
    if first == [] {
      assert first + then_ == then_;
    } else {
      assert (first + then_)[1..] == first[1..] + then_;
      RunConcat(Step(s, first[0]), first[1..], then_);
    }
  }

  // ---- reclaiming -------------------------------------------------------------------------------------

  // The file names a holder, or a process that is gone for good.
  predicate Truthful(s: State) {
    && Exclusive(s) && NoneTwice(s)
    && (s.file.Some? ==>
          && Parse(s.file.value).Some?
          && (Parse(s.file.value).value.pid in s.guards
              || Parse(s.file.value).value.pid in s.used - s.live))
  }

  predicate FilesWork(actions: seq<Action>) {
    forall a | a in actions :: (a.Acquire? ==> a.written) && (a.Release? ==> a.removed)
  }

  lemma StepKeepsTruthful(s: State, a: Action)
    requires Truthful(s) && Sound(s, a) && (a.Acquire? ==> a.written) && (a.Release? ==> a.removed)
    ensures Truthful(Step(s, a))
  {
    hide Encode, Parse;
    SoundStep(s, a);
    if a.Acquire? && a.pid <= U32_MAX && a.epoch <= U64_MAX {
      ParseUndoesEncode(LockInfo(a.pid, a.epoch));
      assert a.pid in s.guards + multiset{a.pid};
    }
  }

  lemma {:induction false} RunKeepsTruthful(s: State, actions: seq<Action>)
    requires Truthful(s) && SoundAlong(s, actions) && FilesWork(actions)
    ensures Truthful(Run(s, actions))
    decreases |actions|
  {
    hide Truthful, Step, Sound;
    if actions != [] {
      assert actions[0] in actions && forall a | a in actions[1..] :: a in actions;
      StepKeepsTruthful(s, actions[0]);
      RunKeepsTruthful(Step(s, actions[0]), actions[1..]);
    }
  }

  // While the file operations work, a process that does not hold the lock is refused exactly
  // when another does or KeePassXC is open, and a holder that dies never blocks the next one.
  lemma RefusedOnlyWhenHeld(start: State, actions: seq<Action>, pid: nat, epoch: nat)
    requires Truthful(start) && SoundAlong(start, actions) && FilesWork(actions) && epoch <= U64_MAX
    ensures var s := Run(start, actions);
            pid in s.live && pid !in s.guards ==>
              (pid !in Step(s, Acquire(pid, epoch, true, true, None)).guards <==> s.keepass || s.guards != multiset{})
    ensures var s := Run(start, actions);
            forall h | h in s.guards && pid in s.live && pid != h && !s.keepass ::
              pid in Step(Step(s, Crash(h)), Acquire(pid, epoch, true, true, None)).guards
  {
    hide Parse;
    RunKeepsTruthful(start, actions);
    var s := Run(start, actions);
    forall h | h in s.guards && pid in s.live && pid != h && !s.keepass
      ensures pid in Step(Step(s, Crash(h)), Acquire(pid, epoch, true, true, None)).guards
    {
      StepKeepsTruthful(s, Crash(h));
    }
  }

  // ---- the program's two moves -----------------------------------------------------------

  class LockFile {
    var state: State

    constructor ()
      ensures Truthful(state) && state == INITIALLY
    {
      state := INITIALLY;
    }

    method TryAcquire(pid: nat, epoch: nat, readable: bool, written: bool, left: Option<string>)
      returns (ok: bool)
      requires pid in state.live && epoch <= U64_MAX
      modifies this
      ensures state == Step(old(state), Acquire(pid, epoch, readable, written, left))
      ensures ok <==> state.guards == old(state.guards) + multiset{pid}
    {
      if state.keepass {
        return false;
      }
      if readable && state.file.Some? {
        var info := ParseLock(state.file.value);
        if info.Some? && info.value.pid != pid && info.value.pid in state.live {
          return false;
        }
        // A dead holder, no holder at all, or this process itself.
        state := state.(file := None);
      }
      if !written {
        state := state.(file := left);
        return false;
      }
      state := state.(file := Some(Encode(LockInfo(pid, epoch))), guards := state.guards + multiset{pid});
      ok := true;
    }

    // Dropping the lock removes the file, when it can.
    method Drop(pid: nat, removed: bool)
      requires pid in state.guards
      modifies this
      ensures state == Step(old(state), Release(pid, removed))
    {
      if removed {
        state := state.(file := None);
      }
      state := state.(guards := state.guards - multiset{pid});
    }
  }
}
