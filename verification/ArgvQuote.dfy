/** Quoting one argument for a Windows helper, and the C runtime's rules that take it apart again
    (app/decoder_ipc.c:255-278, 332-352). */
module ArgvQuote {
  import opened Collections
  import opened Options
  const LENGTH_MAX := 32767
  const SLASH: char := '\\'
  const QUOTE: char := '"'

  function Slashes(n: nat): (s: string)
    ensures |s| == n
  {
    if n == 0 then "" else Slashes(n - 1) + [SLASH]
  }

  predicate Space(c: char) {
    c == ' ' || c == '\t'
  }

  // ----- the C runtime's reading of a command line -----

  function Prepend(text: string, r: (string, string)): (string, string) {
    (text + r.0, r.1)
  }

  /** Reads one argument, n backslashes having just been read; returns it and what follows it.
      Backslashes are literal unless a quote follows: then each pair gives one, an odd one makes the
      quote literal, and otherwise the quote opens or closes a quoted stretch, in which a doubled
      quote is literal. */
  function ReadArgument(s: string, n: nat, quoted: bool): (r: (string, string))
    ensures |r.1| <= |s|
    ensures s != "" && (quoted || !Space(s[0])) ==> |r.1| < |s|
    decreases |s|
  {
    if s == "" then (Slashes(n), "")
    else if s[0] == SLASH then ReadArgument(s[1..], n + 1, quoted)
    else if s[0] == QUOTE then
      if n % 2 == 1 then Prepend(Slashes(n / 2) + [QUOTE], ReadArgument(s[1..], 0, quoted))
      else if quoted && |s| > 1 && s[1] == QUOTE then
        Prepend(Slashes(n / 2) + [QUOTE], ReadArgument(s[2..], 0, quoted))
      else Prepend(Slashes(n / 2), ReadArgument(s[1..], 0, !quoted))
    else if !quoted && Space(s[0]) then (Slashes(n), s)
    else Prepend(Slashes(n) + [s[0]], ReadArgument(s[1..], 0, quoted))
  }

  function SkipSpaces(s: string): (r: string)
    ensures |r| <= |s| && (r != "" ==> !Space(r[0]))
  {
    if s != "" && Space(s[0]) then SkipSpaces(s[1..]) else s
  }

  function Arguments(s: string): seq<string>
    decreases |s|
  {
    var t := SkipSpaces(s);
    if t == "" then []
    else
      var (arg, rest) := ReadArgument(t, 0, false);
      [arg] + Arguments(rest)
  }

  /** The program name: quotes only group, backslashes are literal. */
  function ReadProgram(s: string, quoted: bool): (string, string) {
    if s == "" then ("", "")
    else if s[0] == QUOTE then ReadProgram(s[1..], !quoted)
    else if !quoted && Space(s[0]) then ("", s)
    else Prepend([s[0]], ReadProgram(s[1..], quoted))
  }

  function CommandLine(s: string): seq<string> {
    var (program, rest) := ReadProgram(s, false);
    [program] + Arguments(rest)
  }

  // ----- what the quoter writes -----

  /** The escaped form of text, n backslashes having just been written. */
  function Escape(text: string, n: nat): string {
    if text == "" then Slashes(n)
    else if text[0] == SLASH then [SLASH] + Escape(text[1..], n + 1)
    else if text[0] == QUOTE then Slashes(n) + [SLASH] + [QUOTE] + Escape(text[1..], 0)
    else [text[0]] + Escape(text[1..], 0)
  }

  function Quoted(text: string): string {
    [QUOTE] + Escape(text, 0) + [QUOTE]
  }

  lemma {:induction false} EscapeBound(text: string, n: nat)
    ensures |Escape(text, n)| <= n + 2 * |text|
  {
    if text != "" {
      EscapeBound(text[1..], if text[0] == SLASH then n + 1 else 0);
    }
  }

  /** A leading run of backslashes is written as it stands. */
  lemma {:induction false} EscapeRun(text: string, k: nat, n: nat)
    requires k <= |text| && forall j :: 0 <= j < k ==> text[j] == SLASH
    ensures Escape(text, n) == Slashes(k) + Escape(text[k..], n + k)
  {
    if k == 0 {
      assert text[0..] == text;
    } else {
      var rest, tail := text[1..], text[k..];
      assert rest[k - 1..] == tail;
      EscapeRun(rest, k - 1, n + 1);
      var e := Escape(tail, n + k);
      SlashesSplit(1, k - 1);
      JoinAssoc([SLASH], Slashes(k - 1), e);
      assert Escape(text, n) == [SLASH] + Escape(rest, n + 1);
    }
  }

  lemma {:induction false} SlashesSplit(a: nat, b: nat)
    ensures Slashes(a + b) == Slashes(a) + Slashes(b)
    ensures Slashes(1) == [SLASH]
  {
    if b > 0 {
      SlashesSplit(a, b - 1);
      JoinAssoc(Slashes(a), Slashes(b - 1), [SLASH]);
    }
  }

  method CountSlashes(text: string, i: nat) returns (slashes: nat)
    requires i <= |text|
    ensures i + slashes <= |text|
    ensures forall j :: i <= j < i + slashes ==> text[j] == SLASH
    ensures i + slashes < |text| ==> text[i + slashes] != SLASH
  {
    slashes := 0;
    while i + slashes < |text| && text[i + slashes] == SLASH
      invariant i + slashes <= |text|
      invariant forall j :: i <= j < i + slashes ==> text[j] == SLASH
    {
      slashes := slashes + 1;
    }
  }

  method PutChar(out: array<char>, at: nat, c: char) returns (end: nat)
    requires at < out.Length
    modifies out
    ensures end == at + 1 && out[..end] == old(out[..at]) + [c]
  {
    out[at] := c;
    end := at + 1;
  }

  method PutSlashes(out: array<char>, at: nat, copies: nat) returns (end: nat)
    requires at + copies <= out.Length
    modifies out
    ensures end == at + copies && out[..end] == old(out[..at]) + Slashes(copies)
  {
    end := at;
    while end < at + copies
      invariant at <= end <= at + copies
      invariant out[..end] == old(out[..at]) + Slashes(end - at)
    {
      JoinAssoc(old(out[..at]), Slashes(end - at), [SLASH]);
      end := PutChar(out, end, SLASH);
    }
  }

  /** One round of the outer loop: what a run of k backslashes and the next character turn into. */
  lemma EscapeRound(text: string, i: nat, k: nat)
    requires i + k <= |text| && forall j :: i <= j < i + k ==> text[j] == SLASH
    requires i + k < |text| ==> text[i + k] != SLASH
    ensures i + k == |text| ==> Escape(text[i..], 0) == Slashes(k * 2)
    ensures i + k < |text| && text[i + k] == QUOTE ==>
              Escape(text[i..], 0) == Slashes(k * 2) + [SLASH] + [QUOTE] + Escape(text[i + k + 1..], 0)
    ensures i + k < |text| && text[i + k] != QUOTE ==>
              Escape(text[i..], 0) == Slashes(k) + [text[i + k]] + Escape(text[i + k + 1..], 0)
  {
    var t, u := text[i..], text[i + k..];
    assert t[k..] == u;
    EscapeRun(t, k, 0);
    SlashesSplit(k, k);
    if i + k < |text| {
      assert u[0] == text[i + k] && u[1..] == text[i + k + 1..];
      var e := Escape(u[1..], 0);
      if u[0] == QUOTE {
        JoinAssoc(Slashes(k), Slashes(k) + [SLASH] + [QUOTE], e);
        JoinAssoc(Slashes(k), Slashes(k) + [SLASH], [QUOTE]);
        JoinAssoc(Slashes(k), Slashes(k), [SLASH]);
      } else {
        JoinAssoc(Slashes(k), [u[0]], e);
      }
    }
  }

  /** The outer loop's body: a run of backslashes and the character after it. */
  method QuoteRound(out: array<char>, at: nat, text: string, i: nat) returns (end: nat, next: nat)
    requires i < |text| && at + |Escape(text[i..], 0)| <= out.Length
    modifies out
    ensures i < next <= |text| && end <= out.Length
    ensures out[..end] + Escape(text[next..], 0) == old(out[..at]) + Escape(text[i..], 0)
  {
    ghost var before := out[..at];
    var k := CountSlashes(text, i);
    EscapeRound(text, i, k);
    next := i + k;
    if next == |text| {
      end := PutSlashes(out, at, k * 2);
      assert text[next..] == "" && before + Slashes(k * 2) + "" == before + Slashes(k * 2);
    } else if text[next] == QUOTE {
      end := PutSlashes(out, at, k * 2);
      end := PutChar(out, end, SLASH);
      end := PutChar(out, end, text[next]);
      next := next + 1;
      AssocFour(before, Slashes(k * 2), [SLASH], [QUOTE], Escape(text[next..], 0));
    } else {
      end := PutSlashes(out, at, k);
      end := PutChar(out, end, text[next]);
      next := next + 1;
      JoinAssoc(before, Slashes(k) + [text[next - 1]], Escape(text[next..], 0));
      JoinAssoc(before, Slashes(k), [text[next - 1]]);
    }
  }

  lemma AssocFour(a: string, b: string, c: string, d: string, e: string)
    ensures a + (b + c + d + e) == a + b + c + d + e
  {
    JoinAssoc(a, b + c + d, e);
    JoinAssoc(a, b + c, d);
    JoinAssoc(a, b, c);
  }

  /** decoder_quote: writes the quoted text at position at and returns the position after it. */
  method DecoderQuote(out: array<char>, at: nat, text: string) returns (end: nat)
    requires at + 2 * |text| + 2 <= out.Length
    modifies out
    ensures at <= end <= at + 2 * |text| + 2
    ensures out[..end] == old(out[..at]) + Quoted(text)
  {
    ghost var start := out[..at] + [QUOTE];
    EscapeBound(text, 0);
    end := PutChar(out, at, QUOTE);
    var i := 0;
    assert text[0..] == text;
    while i < |text|
      invariant 0 <= i <= |text| && end <= out.Length
      invariant out[..end] + Escape(text[i..], 0) == start + Escape(text, 0)
    {
      SumLength(out[..end], Escape(text[i..], 0), start, Escape(text, 0));
      end, i := QuoteRound(out, end, text, i);
    }
    assert text[i..] == "";
    SumLength(out[..end], "", start, Escape(text, 0));
    assert out[..end] + "" == out[..end];
    end := PutChar(out, end, QUOTE);
    JoinAssoc(old(out[..at]), [QUOTE] + Escape(text, 0), [QUOTE]);
    JoinAssoc(old(out[..at]), [QUOTE], Escape(text, 0));
  }

  lemma SumLength(a: string, b: string, c: string, d: string)
    requires a + b == c + d
    ensures |a| + |b| == |c| + |d|
  {
    assert |a + b| == |a| + |b|;
  }

  // ----- the quoted form reads back -----

  lemma {:induction false} ReadSlashes(m: nat, t: string, n: nat, quoted: bool)
    ensures ReadArgument(Slashes(m) + t, n, quoted) == ReadArgument(t, n + m, quoted)
  {
    if m == 0 {
      assert Slashes(0) + t == t;
    } else {
      SlashesSplit(1, m - 1);
      var s := Slashes(m) + t;
      assert s[0] == SLASH && s[1..] == Slashes(m - 1) + t;
      ReadSlashes(m - 1, t, n + 1, quoted);
    }
  }

  lemma ReadNothing(tail: string)
    requires tail == "" || Space(tail[0])
    ensures ReadArgument(tail, 0, false) == ("", tail)
  {
  }

  lemma ReadClosing(n: nat, tail: string)
    requires tail == "" || Space(tail[0])
    ensures ReadArgument(Slashes(n) + ([QUOTE] + tail), n, true) == (Slashes(n), tail)
  {
    var t := [QUOTE] + tail;
    assert t[1..] == tail;
    ReadSlashes(n, t, n, true);
    ReadNothing(tail);
    assert Slashes(n) + "" == Slashes(n);
  }

  lemma ReadEscapedQuote(n: nat, after: string)
    ensures ReadArgument(Slashes(n) + ([SLASH] + ([QUOTE] + after)), n, true) ==
            Prepend(Slashes(n) + [QUOTE], ReadArgument(after, 0, true))
  {
    var t := [QUOTE] + after;
    var u := [SLASH] + t;
    assert t[1..] == after && u[1..] == t;
    ReadSlashes(n, u, n, true);
    assert ReadArgument(u, n + n, true) == ReadArgument(t, n + n + 1, true);
    assert (n + n + 1) % 2 == 1 && (n + n + 1) / 2 == n;
  }

  /** Reading the escaped form, with n literal backslashes pending, gives them and the text. */
  lemma {:induction false} QuotedBodyReads(text: string, n: nat, tail: string)
    requires tail == "" || Space(tail[0])
    ensures ReadArgument(Escape(text, n) + ([QUOTE] + tail), n, true) == (Slashes(n) + text, tail)
  {
    var close := [QUOTE] + tail;
    if text == "" {
      ReadClosing(n, tail);
      assert Slashes(n) + "" == Slashes(n);
    } else {
      var c, rest := text[0], text[1..];
      assert text == [c] + rest;
      JoinAssoc(Slashes(n), [c], rest);
      if c == SLASH {
        QuotedBodyReads(rest, n + 1, tail);
        ReadOne(c, Escape(rest, n + 1), close, n);
      } else {
        QuotedBodyReads(rest, 0, tail);
        assert Slashes(0) + rest == rest;
        var after := Escape(rest, 0) + close;
        if c == QUOTE {
          AssocTail(Slashes(n), [SLASH], [QUOTE], Escape(rest, 0), close);
          ReadEscapedQuote(n, after);
        } else {
          ReadOne(c, Escape(rest, 0), close, n);
        }
      }
    }
  }

  lemma AssocTail(a: string, b: string, c: string, d: string, e: string)
    ensures a + b + c + d + e == a + (b + (c + (d + e)))
  {
    JoinAssoc(a + b + c, d, e);
    JoinAssoc(a + b, c, d + e);
    JoinAssoc(a, b, c + (d + e));
  }

  lemma ReadOne(c: char, e: string, close: string, n: nat)
    requires c != QUOTE
    ensures ReadArgument([c] + e + close, n, true) ==
            if c == SLASH then ReadArgument(e + close, n + 1, true)
            else Prepend(Slashes(n) + [c], ReadArgument(e + close, 0, true))
  {
    JoinAssoc([c], e, close);
    var s := [c] + (e + close);
    assert s[1..] == e + close;
  }

  /** The runtime reads the quoted form of any text back as exactly that one argument, whatever
      separate arguments follow. */
  lemma QuotedReadsBack(text: string, tail: string)
    requires tail == "" || Space(tail[0])
    ensures Arguments(Quoted(text) + tail) == [text] + Arguments(tail)
  {
    var body := Escape(text, 0) + ([QUOTE] + tail);
    var s := Quoted(text) + tail;
    JoinAssoc([QUOTE] + Escape(text, 0), [QUOTE], tail);
    JoinAssoc([QUOTE], Escape(text, 0), [QUOTE] + tail);
    assert s == [QUOTE] + body && s[1..] == body;
    QuotedBodyReads(text, 0, tail);
    assert Slashes(0) + text == text;
  }

  // ----- the whole command line -----

  /** decoder_start's command: the quoted program, then the quoted argument if there is one. */
  function Command(path: string, argument: Option<string>): string {
    [QUOTE] + path + [QUOTE] + (if argument.Some? then " " + Quoted(argument.value) else "")
  }

  lemma {:induction false} ReadProgramName(path: string, rest: string)
    requires QUOTE !in path && (rest == "" || Space(rest[0]))
    ensures ReadProgram(path + ([QUOTE] + rest), true) == (path, rest)
  {
    var s := path + ([QUOTE] + rest);
    if path == "" {
      assert s == [QUOTE] + rest && s[1..] == rest;
      assert ReadProgram(rest, false) == ("", rest);
    } else {
      assert s[0] == path[0] && s[1..] == path[1..] + ([QUOTE] + rest);
      ReadProgramName(path[1..], rest);
      assert path == [path[0]] + path[1..];
    }
  }

  /** The runtime hands the helper exactly its path and the argument it was started with. */
  lemma CommandReadsBack(path: string, argument: Option<string>)
    requires QUOTE !in path
    ensures CommandLine(Command(path, argument)) ==
            [path] + (if argument.Some? then [argument.value] else [])
  {
    var rest := if argument.Some? then " " + Quoted(argument.value) else "";
    var s := Command(path, argument);
    JoinAssoc([QUOTE] + path, [QUOTE], rest);
    JoinAssoc([QUOTE], path, [QUOTE] + rest);
    assert s[1..] == path + ([QUOTE] + rest);
    ReadProgramName(path, rest);
    if argument.Some? {
      var q := Quoted(argument.value);
      assert rest[1..] == q && q[0] == QUOTE;
      assert SkipSpaces(q) == q && SkipSpaces(rest) == q;
      assert q + "" == q;
      QuotedReadsBack(argument.value, "");
      assert Arguments(rest) == Arguments(q);
    }
  }

  /** The command buffer: its computed size suffices for every path and argument it accepts. */
  method BuildCommand(path: string, argument: Option<string>) returns (command: array?<char>, end: nat)
    ensures command == null <==>
              QUOTE in path || |path| > LENGTH_MAX || (argument.Some? && |argument.value| > LENGTH_MAX)
    ensures command != null ==> end < command.Length && command[end] == '\0'
    ensures command != null ==> command[..end] == Command(path, argument)
  {
    var length := |path|;
    var argLength := if argument.Some? then |argument.value| else 0;
    if QUOTE in path || length > LENGTH_MAX || argLength > LENGTH_MAX {
      return null, 0;
    }
    var buffer := new char[length + argLength * 2 + 7];
    end := PutChar(buffer, 0, QUOTE);
    for i := 0 to length
      invariant end == 1 + i && buffer[..end] == [QUOTE] + path[..i]
    {
      end := PutChar(buffer, end, path[i]);
    }
    assert path[..length] == path;
    end := PutChar(buffer, end, QUOTE);
    ghost var program := [QUOTE] + path + [QUOTE];
    if argument.Some? {
      end := PutChar(buffer, end, ' ');
      end := DecoderQuote(buffer, end, argument.value);
      JoinAssoc(program, " ", Quoted(argument.value));
    } else {
      assert program + "" == program;
    }
    buffer[end] := '\0';
    command := buffer;
  }
}
