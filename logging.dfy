/**
 * Index logging through a caller-supplied callback.
 *
 * An index formats its message from a printf-style format and arguments and hands the
 * level and the text to the callback together with the log context it was created with.
 * The callback of the basic log test appends one line per call to the context's buffer:
 * the level, a colon and a space, the context's prefix, and the message.
 */
module Logging {
  /** The level names the index passes to the callback. */
  const NoticeLevel: string := "notice"
  const WarningLevel: string := "warning"

  // ---------------------------------------------------------------- formatting

  /** The number of %s conversions in fmt. */
  function Placeholders(fmt: string): nat
    decreases |fmt|
  {
    if |fmt| == 0 then 0
    else if |fmt| >= 2 && fmt[0] == '%' && fmt[1] == 's' then 1 + Placeholders(fmt[2..])
    else Placeholders(fmt[1..])
  }

  function TotalLength(args: seq<string>): nat {
    if args == [] then 0 else |args[0]| + TotalLength(args[1..])
  }

  /** fmt with each %s replaced by the next argument; every other character is copied. */
  function Format(fmt: string, args: seq<string>): (r: string)
    requires Placeholders(fmt) == |args|
    ensures |r| + 2 * |args| == |fmt| + TotalLength(args)
    decreases |fmt|
  {
    if |fmt| == 0 then ""
    else if |fmt| >= 2 && fmt[0] == '%' && fmt[1] == 's' then args[0] + Format(fmt[2..], args[1..])
    else [fmt[0]] + Format(fmt[1..], args)
  }

  /** A format without conversions is its own text. */
  lemma {:induction false} FormatPlain(fmt: string)
    requires Placeholders(fmt) == 0
    ensures Format(fmt, []) == fmt
    decreases |fmt|
  {
    if |fmt| > 0 {
      FormatPlain(fmt[1..]);
      assert fmt == [fmt[0]] + fmt[1..];
    }
  }

  /** The first %s takes the first argument: text before it is copied, text after it is formatted with the rest. */
  lemma {:induction false} FormatSplice(a: string, b: string, x: string, xs: seq<string>)
    requires Placeholders(a) == 0 && Placeholders(b) == |xs|
    ensures Placeholders(a + "%s" + b) == |xs| + 1
    ensures Format(a + "%s" + b, [x] + xs) == a + x + Format(b, xs)
    decreases |a|
  {
    var f := a + "%s" + b;
    if |a| == 0 {
      assert f == "%s" + b;
      assert f[2..] == b;
      assert ([x] + xs)[1..] == xs;
    } else {
      var t := a[1..] + "%s" + b;
      assert f == [a[0]] + t;
      assert |a| == 1 ==> t[0] == '%';
      assert |a| >= 2 ==> t[0] == a[1];
      assert f[0] == a[0] && f[1..] == t;
      CopiedFirst(f, [x] + xs);
      CopiedFirst(a, []);
      FormatSplice(a[1..], b, x, xs);
      assert Format(f, [x] + xs) == [a[0]] + (a[1..] + x + Format(b, xs));
      PrependJoined(a, x, Format(b, xs));
    }
  }

  lemma PrependJoined(a: string, x: string, y: string)
    requires |a| > 0
    ensures [a[0]] + (a[1..] + x + y) == a + x + y
  {
    assert a == [a[0]] + a[1..];
  }

  /** A first character that does not start a %s is copied. */
  lemma CopiedFirst(f: string, args: seq<string>)
    requires |f| > 0 && !(|f| >= 2 && f[0] == '%' && f[1] == 's')
    ensures Placeholders(f) == Placeholders(f[1..])
    ensures Placeholders(f) == |args| ==> Format(f, args) == [f[0]] + Format(f[1..], args)
  {
  }

  // ---------------------------------------------------------------- the log line

  /** The line test_log_impl stores for a call. */
  function LogLine(level: string, prefix: string, message: string): (line: string)
    ensures |line| == |level| + 2 + |prefix| + |message|
  {
    level + ": " + prefix + message
  }

  /** The position of the first colon of s, or |s| when there is none. */
  function ColonAt(s: string): (i: nat)
    ensures i <= |s| && (i < |s| ==> s[i] == ':')
    ensures forall k :: 0 <= k < i ==> s[k] != ':'
  {
    if |s| == 0 || s[0] == ':' then 0 else 1 + ColonAt(s[1..])
  }

  /** A level without a colon, and what follows it, can be read back from the line. */
  lemma {:induction false} LogLineParts(level: string, prefix: string, message: string)
    requires ':' !in level
    ensures var line := LogLine(level, prefix, message);
      && ColonAt(line) == |level|
      && line[..|level|] == level
      && line[|level|..|level| + 2] == ": "
      && line[|level| + 2..] == prefix + message
    decreases |level|
  {
    var line := LogLine(level, prefix, message);
    if |level| > 0 {
      assert line[1..] == LogLine(level[1..], prefix, message);
      assert level[0] != ':';
      assert forall c :: c in level[1..] ==> c in level;
      LogLineParts(level[1..], prefix, message);
    }
  }

  /** With the prefix fixed, the line determines the level and the message. */
  lemma LogLineInjective(l1: string, m1: string, l2: string, m2: string, prefix: string)
    requires ':' !in l1 && ':' !in l2
    requires LogLine(l1, prefix, m1) == LogLine(l2, prefix, m2)
    ensures l1 == l2 && m1 == m2
  {
    LogLineParts(l1, prefix, m1);
    LogLineParts(l2, prefix, m2);
    var line := LogLine(l1, prefix, m1);
    assert (prefix + m1)[|prefix|..] == m1;
    assert (prefix + m2)[|prefix|..] == m2;
  }

  // ---------------------------------------------------------------- the log context

  /** The context the basic log test gives the index: the lines received and the prefix to put on them. */
  class LogContext {
    var logBuffer: seq<string>
    var prefix: string

    constructor (prefix: string)
      ensures logBuffer == [] && this.prefix == prefix
    {
      logBuffer := [];
      this.prefix := prefix;
    }

    /** test_log_impl: store one line. */
    method TestLogImpl(level: string, message: string)
      modifies this
      ensures logBuffer == old(logBuffer) + [LogLine(level, prefix, message)]
      ensures prefix == old(prefix)
    {
      logBuffer := logBuffer + [level + ": " + prefix + message];
    }
  }

  /** The index's log call: format the message, then hand it to the callback with the index's context. */
  method IndexLog(ctx: LogContext, level: string, fmt: string, args: seq<string>)
    requires Placeholders(fmt) == |args|
    modifies ctx
    ensures ctx.logBuffer == old(ctx.logBuffer) + [LogLine(level, ctx.prefix, Format(fmt, args))]
    ensures ctx.prefix == old(ctx.prefix)
  {
    ctx.TestLogImpl(level, Format(fmt, args));
  }

  // ---------------------------------------------------------------- the recorded run

  const TestPrefix: string := "test log prefix: "
  const PlainFormat: string := "test log message no fmt"
  const ArgsFormat: string := "test log message %s %s"
  const ArgsMessage: string := "test log message with args"
  /** The two lines the test expects in the buffer. */
  const ExpectedNotice: string := "notice: " + "test log prefix: " + "test log message no fmt"
  const ExpectedWarning: string := "warning: " + "test log prefix: " + "test log message with args"

  /** One message without conversions and one with two %s, at levels notice and warning. */
  method LogBasicRun() returns (lines: seq<string>)
    ensures lines == [ExpectedNotice, ExpectedWarning]
  {
    var ctx := new LogContext(TestPrefix);
    var plain, withArgs, args := PlainFormat, ArgsFormat, ["with", "args"];
    PlainFormatted(plain);
    ArgsFormatted(withArgs, args);
    IndexLog(ctx, NoticeLevel, plain, []);
    IndexLog(ctx, WarningLevel, withArgs, args);
    lines := ctx.logBuffer;
    RunLines(lines);
  }

  lemma RunLines(lines: seq<string>)
    requires lines == [LogLine(NoticeLevel, TestPrefix, PlainFormat), LogLine(WarningLevel, TestPrefix, ArgsMessage)]
    ensures lines == [ExpectedNotice, ExpectedWarning]
  {
    // Each line is the literal pieces of its expected text.
    assert "notice" + ": " == "notice: ";
    assert LogLine(NoticeLevel, TestPrefix, PlainFormat) == ExpectedNotice;
    assert "warning" + ": " == "warning: ";
    assert LogLine(WarningLevel, TestPrefix, ArgsMessage) == ExpectedWarning;
  }

  /** Without a percent sign there is nothing to convert. */
  lemma {:induction false} NoPercent(s: string)
    requires '%' !in s
    ensures Placeholders(s) == 0
    decreases |s|
  {
    if |s| > 0 {
      assert forall c :: c in s[1..] ==> c in s;
      NoPercent(s[1..]);
    }
  }

  lemma PlainFormatted(f: string)
    requires f == PlainFormat
    ensures Placeholders(f) == 0 && Format(f, []) == PlainFormat
  {
    NoPercent(f);
    FormatPlain(f);
  }

  /** Two conversions separated by a space, after text without conversions. */
  lemma TwoArgs(a: string, f: string, x: string, y: string)
    requires '%' !in a && f == a + "%s" + " %s"
    ensures Placeholders(f) == 2 && Format(f, [x, y]) == a + x + " " + y
  {
    NoPercent(a);
    var t := " %s";
    assert t == " " + "%s" + "";
    NoPercent("");
    FormatPlain("");
    NoPercent(" ");
    FormatSplice(" ", "", y, []);
    assert Format(t, [y]) == " " + y;
    FormatSplice(a, t, x, [y]);
    assert [x] + [y] == [x, y];
    assert a + x + (" " + y) == a + x + " " + y;
  }

  lemma ArgsFormatted(f: string, args: seq<string>)
    requires f == ArgsFormat && args == ["with", "args"]
    ensures Placeholders(f) == 2 && Format(f, args) == ArgsMessage
  {
    // The format and the message, as the literal pieces TwoArgs speaks of.
    assert ArgsFormat == "test log message " + "%s" + " %s";
    assert "test log message " + "with" + " " + "args" == ArgsMessage;
    TwoArgs("test log message ", f, "with", "args");
  }
}
