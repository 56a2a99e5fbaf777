/** The countdown timer card (src/modules/student/TimerModule.jsx): a number of seconds typed
    as digits, a countdown that runs, stops and resumes, and an alarm when it reaches zero. One
    step of the countdown effect is one call of `Tick`: a step on a running timer with time
    left is one second of the interval, and the step at zero is the effect re-running at once
    when the seconds reach 0, not a further second; sound and card flipping are not modelled. */
module Timer {
  import opened Text

  /** `value.replace(/[^0-9]/g, '')`: the digits of `s`, in their order. */
  function DigitsOnly(s: string): (r: string)
    ensures AllDigits(r) && |r| <= |s|
    ensures forall c :: IsDigit(c) ==> multiset(r)[c] == multiset(s)[c]
  {
    if s == [] then []
    else
      assert s == [s[0]] + s[1..];
      if IsDigit(s[0]) then [s[0]] + DigitsOnly(s[1..]) else DigitsOnly(s[1..])
  }

  /** Text that is already all digits passes through unchanged, so filtering twice is filtering
      once. */
  lemma {:induction false} DigitsOnlyKeepsDigits(s: string)
    requires AllDigits(s)
    ensures DigitsOnly(s) == s
  {
    if s != [] {
      DigitsOnlyKeepsDigits(s[1..]);
    }
  }

  lemma DigitsOnlyIdempotent(s: string)
    ensures DigitsOnly(DigitsOnly(s)) == DigitsOnly(s)
  {
    DigitsOnlyKeepsDigits(DigitsOnly(s));
  }

  /** Typing more text filters piece by piece. */
  lemma {:induction false} DigitsOnlyAppend(a: string, b: string)
    ensures DigitsOnly(a + b) == DigitsOnly(a) + DigitsOnly(b)
  {
    if a == [] {
      assert a + b == b;
    } else {
      var ab := a + b;
      assert ab[0] == a[0] && ab[1..] == a[1..] + b;
      DigitsOnlyAppend(a[1..], b);
      if IsDigit(a[0]) {
        calc {
          DigitsOnly(ab);
          [a[0]] + DigitsOnly(a[1..] + b);
          [a[0]] + (DigitsOnly(a[1..]) + DigitsOnly(b));
          ([a[0]] + DigitsOnly(a[1..])) + DigitsOnly(b);
        }
      }
    }
  }

  /** The timer's `{ seconds, isRunning }` with the alarm flag beside it. */
  datatype Clock = Clock(seconds: nat, running: bool, alarm: bool)

  /** One step of the countdown effect: a running timer with time left loses one second (one
      interval firing); a running timer at zero stops and raises the alarm (the effect's
      immediate re-run once the seconds reach 0); a stopped timer stays as it is. */
  function Next(c: Clock): (r: Clock)
    ensures r.seconds <= c.seconds && (r.running ==> c.running)
    ensures r.seconds < c.seconds <==> c.running && c.seconds > 0
    ensures r.alarm && !c.alarm ==> c.running && c.seconds == 0 && !r.running
    ensures !c.running ==> r == c
  {
    if c.running && c.seconds > 0 then c.(seconds := c.seconds - 1)
    else if c.seconds == 0 && c.running then c.(running := false, alarm := true)
    else c
  }

  /** The clock after `n` steps. */
  function After(c: Clock, n: nat): Clock
    decreases n
  {
    if n == 0 then c else After(Next(c), n - 1)
  }

  /** Started with `s` seconds, the timer counts down one second per step while it runs. */
  lemma {:induction false} CountsDown(s: nat, alarm: bool, n: nat)
    requires n <= s
    ensures After(Clock(s, true, alarm), n) == Clock(s - n, true, alarm)
    decreases n
  {
    if n > 0 {
      CountsDown(s, alarm, n - 1);
      AfterSplit(Clock(s, true, alarm), n - 1, 1);
    }
  }

  /** Started with `s` seconds, the timer has stopped at zero with the alarm raised after
      `s + 1` steps: the `s` interval firings and the effect's immediate re-run at zero, so
      the alarm comes at `s` seconds. */
  lemma AlarmAfter(s: nat, alarm: bool)
    ensures After(Clock(s, true, alarm), s + 1) == Clock(0, false, true)
  {
    CountsDown(s, alarm, s);
    AfterSplit(Clock(s, true, alarm), s, 1);
  }

  lemma {:induction false} AfterSplit(c: Clock, m: nat, n: nat)
    ensures After(c, m + n) == After(After(c, m), n)
    decreases m
  {
    if m > 0 {
      AfterSplit(Next(c), m - 1, n);
    }
  }

  /** A stopped timer keeps its seconds however many steps pass. */
  lemma {:induction false} StoppedStays(c: Clock, n: nat)
    requires !c.running
    ensures After(c, n) == c
    decreases n
  {
    if n > 0 {
      StoppedStays(Next(c), n - 1);
    }
  }

  /** The card's state. */
  class TimerCard {
    var seconds: nat
    var isRunning: bool
    var showAlarm: bool
    var inputSeconds: string

    /** The input field only ever holds digits. */
    predicate Valid()
      reads this
    {
      AllDigits(inputSeconds)
    }

    function Current(): Clock
      reads this
    {
      Clock(seconds, isRunning, showAlarm)
    }

    constructor ()
      ensures Valid() && seconds == 0 && !isRunning && !showAlarm && inputSeconds == []
    {
      seconds, isRunning, showAlarm, inputSeconds := 0, false, false, [];
    }

    /** One step of the countdown effect (see `Next`). */
    method Tick()
      modifies this
      ensures Current() == Next(old(Current()))
      ensures inputSeconds == old(inputSeconds)
    {
      if isRunning && seconds > 0 {
        seconds := seconds - 1;
      } else if seconds == 0 && isRunning {
        isRunning := false;
        showAlarm := true;
      }
    }

    /** The input's onChange: only the digits of what was typed are kept. */
    method Type(value: string)
      modifies this
      ensures Valid() && inputSeconds == DigitsOnly(value)
      ensures seconds == old(seconds) && isRunning == old(isRunning) && showAlarm == old(showAlarm)
    {
      inputSeconds := DigitsOnly(value);
    }

    /** handleStart: a positive `parseInt` of the input starts the countdown from that many
        seconds and clears the input; anything else changes nothing. On digits the value read
        is the decimal value of the input. */
    method Start() returns (started: bool)
      requires Valid()
      modifies this
      ensures Valid()
      ensures started <==> old(inputSeconds) != [] && DigitsValue(old(inputSeconds)) > 0
      ensures started ==> seconds == DigitsValue(old(inputSeconds)) && isRunning && inputSeconds == []
      ensures !started ==> seconds == old(seconds) && isRunning == old(isRunning) && inputSeconds == old(inputSeconds)
      ensures showAlarm == old(showAlarm)
    {
      if inputSeconds != [] {
        ParseIntDigits(inputSeconds);
      } else {
        assert TrimStart(inputSeconds) == [];
      }
      var n := ParseInt(inputSeconds);
      started := n.Num? && n.value > 0;
      if started {
        seconds, isRunning := n.value, true;
        inputSeconds := [];
      }
    }

    /** handleStop: the countdown pauses with the seconds it has left. */
    method Stop()
      modifies this
      ensures !isRunning && seconds == old(seconds)
      ensures showAlarm == old(showAlarm) && inputSeconds == old(inputSeconds)
    {
      isRunning := false;
    }

    /** The resume button: the countdown goes on from the seconds it had left. */
    method Resume()
      modifies this
      ensures isRunning && seconds == old(seconds)
      ensures showAlarm == old(showAlarm) && inputSeconds == old(inputSeconds)
    {
      isRunning := true;
    }

    /** handleReset: no time, not running, and an empty input. */
    method Reset()
      modifies this
      ensures Valid() && seconds == 0 && !isRunning && inputSeconds == []
      ensures showAlarm == old(showAlarm)
    {
      seconds, isRunning := 0, false;
      inputSeconds := [];
    }

    /** handleAlarmClose: the alarm is dismissed. */
    method CloseAlarm()
      modifies this
      ensures !showAlarm
      ensures seconds == old(seconds) && isRunning == old(isRunning) && inputSeconds == old(inputSeconds)
    {
      showAlarm := false;
    }
  }
}
