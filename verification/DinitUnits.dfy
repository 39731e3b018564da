/** The text of dinit unit files, as the assembly script's sed expressions read it. */
module DinitUnits {
  import opened Common

  /** The class [[:space:]] of the C locale. */
  predicate IsSpace(c: char) {
    c == ' ' || '\t' <= c <= '\r'
  }

  /** The characters of the shell's default IFS. */
  predicate SplitsWords(c: char) {
    c == ' ' || c == '\t' || c == '\n'
  }

  predicate IsWord(w: string) {
    w != "" && forall i :: 0 <= i < |w| ==> !SplitsWords(w[i])
  }

  function DropSpaces(s: string): string {
    if s != "" && IsSpace(s[0]) then DropSpaces(s[1..]) else s
  }

  function TakeWhileNot(stop: char -> bool, s: string): (r: string)
    ensures r <= s
    ensures forall i :: 0 <= i < |r| ==> !stop(r[i])
    ensures |r| < |s| ==> stop(s[|r|])
  {
    if s == "" || stop(s[0]) then "" else [s[0]] + TakeWhileNot(stop, s[1..])
  }

  /** Unquoted expansion: the words of `s`. */
  function Words(s: string): (r: seq<string>)
    ensures forall w :: w in r ==> IsWord(w)
    decreases |s|
  {
    if s == "" then []
    else if SplitsWords(s[0]) then Words(s[1..])
    else
      var w := TakeWhileNot(SplitsWords, s);
      [w] + Words(s[|w|..])
  }

  /** What follows `key[[:space:]]*=[[:space:]]*` at the start of a line. */
  function Value(key: string, line: string): Option<string> {
    var body := DropSpaces(line);
    if !(key <= body) then None else
    var rest := DropSpaces(body[|key|..]);
    if rest == "" || rest[0] != '=' then None else Some(DropSpaces(rest[1..]))
  }

  /** s/^depends-on = //p */
  function StrictValue(line: string): Option<string> {
    if "depends-on = " <= line then Some(line[13..]) else None
  }

  /** The dependencies read by the runnable check. */
  function Dependencies(lines: seq<string>): (r: seq<string>)
    ensures forall w :: w in r ==> IsWord(w)
  {
    if lines == [] then [] else
    (match Value("depends-on", lines[0]) case Some(v) => Words(v) case None => [])
    + Dependencies(lines[1..])
  }

  /** The services read by filtering and validation. */
  function Listed(lines: seq<string>): (r: seq<string>)
    ensures forall w :: w in r ==> IsWord(w)
  {
    if lines == [] then [] else
    (match StrictValue(lines[0]) case Some(v) => Words(v) case None => [])
    + Listed(lines[1..])
  }

  /** The first token of the first line that has a command. */
  function Command(lines: seq<string>): string {
    if lines == [] then "" else
    match Value("command", lines[0])
    case Some(v) => TakeWhileNot(IsSpace, v)
    case None => Command(lines[1..])
  }

  /** The first token after /bin/toybox on the first line that has one. */
  function Applet(lines: seq<string>): string {
    if lines == [] then "" else
    match Value("command", lines[0])
    case Some(v) =>
      if "/bin/toybox" <= v && |v| > 11 && IsSpace(v[11])
      then TakeWhileNot(IsSpace, DropSpaces(v[11..]))
      else Applet(lines[1..])
    case None => Applet(lines[1..])
  }

  // ----- the boot unit that _wire_boot_services writes -----

  function DependsLines(services: seq<string>): seq<string> {
    if services == [] then [] else ["depends-on = " + services[0]] + DependsLines(services[1..])
  }

  function BootUnit(services: seq<string>): seq<string> {
    ["type = scripted", "command = /bin/true", "restart = no"] + DependsLines(services)
  }

  /** A word that sed's and the shell's notion of white space treat alike at its start. */
  predicate IsPlain(w: string) {
    IsWord(w) && !IsSpace(w[0])
  }

  lemma {:induction false} WordsOfWord(w: string)
    requires IsWord(w)
    ensures Words(w) == [w]
  {
    var t := TakeWhileNot(SplitsWords, w);
    assert t == w;
    assert w[|t|..] == "";
  }

  /** Each word without the white space sed strips from its start; words of nothing else disappear. */
  function Trimmed(words: seq<string>): seq<string> {
    if words == [] then [] else
    var t := DropSpaces(words[0]);
    (if t == "" then [] else [t]) + Trimmed(words[1..])
  }

  lemma {:induction false} DropSpacesWord(w: string)
    requires forall i :: 0 <= i < |w| ==> !SplitsWords(w[i])
    ensures DropSpaces(w) == "" || IsPlain(DropSpaces(w))
    ensures IsPlain(w) ==> DropSpaces(w) == w
  {
    if w != "" && IsSpace(w[0]) {
      DropSpacesWord(w[1..]);
    }
  }

  lemma DependsLineReads(w: string)
    requires IsWord(w)
    ensures var line := "depends-on = " + w;
            StrictValue(line) == Some(w) && Value("depends-on", line) == Some(DropSpaces(w))
  {
    var line := "depends-on = " + w;
    assert line[13..] == w;
    StrictIsLoose(line);
  }

  lemma {:induction false} DependsLinesRead(services: seq<string>)
    requires forall s :: s in services ==> IsWord(s)
    ensures Listed(DependsLines(services)) == services
    ensures Dependencies(DependsLines(services)) == Trimmed(services)
  {
    hide Words, Value, StrictValue;
    if services != [] {
      var w := services[0];
      DependsLineReads(w);
      WordsOfWord(w);
      DropSpacesWord(w);
      if DropSpaces(w) == "" {
        NoWords();
      } else {
        WordsOfWord(DropSpaces(w));
      }
      DependsLinesRead(services[1..]);
      var lines := DependsLines(services);
      assert lines[0] == "depends-on = " + w && lines[1..] == DependsLines(services[1..]);
    }
  }

  lemma NoWords()
    ensures Words("") == []
  {
  }

  lemma {:induction false} TrimmedExactly(words: seq<string>, t: string)
    requires forall w :: w in words ==> IsWord(w)
    ensures t in Trimmed(words) <==> IsPlain(t) && exists w :: w in words && DropSpaces(w) == t
  {
    if words != [] {
      assert words[0] in words;
      DropSpacesWord(words[0]);
      TrimmedExactly(words[1..], t);
      assert words == [words[0]] + words[1..];
    }
  }

  lemma {:induction false} PlainUntrimmed(words: seq<string>)
    requires forall w :: w in words ==> IsPlain(w)
    ensures Trimmed(words) == words
  {
    if words != [] {
      assert words[0] in words;
      DropSpacesWord(words[0]);
      PlainUntrimmed(words[1..]);
    }
  }

  lemma HeaderHasNoServices(rest: seq<string>)
    ensures var lines := ["type = scripted", "command = /bin/true", "restart = no"] + rest;
            Listed(lines) == Listed(rest) && Dependencies(lines) == Dependencies(rest)
  {
    hide Listed, Dependencies;
    var a, b, c := "type = scripted", "command = /bin/true", "restart = no";
    SkipsLine(a, [b, c] + rest);
    SkipsLine(b, [c] + rest);
    SkipsLine(c, rest);
    assert [a, b, c] + rest == [a] + ([b, c] + rest);
    assert [b, c] + rest == [b] + ([c] + rest);
  }

  lemma SkipsLine(line: string, rest: seq<string>)
    requires line != "" && !IsSpace(line[0]) && line[0] != 'd'
    ensures Listed([line] + rest) == Listed(rest)
    ensures Dependencies([line] + rest) == Dependencies(rest)
  {
    assert "depends-on"[0] == 'd' && "depends-on = "[0] == 'd';
    assert StrictValue(line).None? && Value("depends-on", line).None?;
    assert ([line] + rest)[1..] == rest;
  }

  /** Round trip: filtering and validation get back exactly the services the boot unit was written for. The
      runnable check gets them trimmed, so it gets the same exactly when none begins with a carriage return,
      vertical tab or form feed. */
  lemma BootUnitRoundTrip(services: seq<string>)
    requires forall s :: s in services ==> IsWord(s)
    ensures Listed(BootUnit(services)) == services
    ensures Dependencies(BootUnit(services)) == Trimmed(services)
    ensures Dependencies(BootUnit(services)) == services <==> forall s :: s in services ==> IsPlain(s)
  {
    hide Listed, Dependencies;
    HeaderHasNoServices(DependsLines(services));
    DependsLinesRead(services);
    if forall s :: s in services ==> IsPlain(s) {
      PlainUntrimmed(services);
    } else {
      var s :| s in services && !IsPlain(s);
      TrimmedExactly(services, s);
    }
  }

  // ----- commands -----

  lemma NoCommand(line: string, rest: seq<string>)
    requires line != "" && !IsSpace(line[0]) && line[0] != 'c'
    ensures Command([line] + rest) == Command(rest)
  {
    assert "command"[0] == 'c';
    assert Value("command", line).None?;
    assert ([line] + rest)[1..] == rest;
  }

  predicate AllSpaces(s: string) {
    forall i :: 0 <= i < |s| ==> IsSpace(s[i])
  }

  predicate IsToken(t: string) {
    t != "" && forall i :: 0 <= i < |t| ==> !IsSpace(t[i])
  }

  /** Nothing, or something that begins with white space. */
  predicate EndsToken(rest: string) {
    rest == "" || IsSpace(rest[0])
  }

  /** The first token of a text, whatever white space is before it and whatever follows. */
  lemma {:induction false} FirstToken(t: string, rest: string)
    requires (forall i :: 0 <= i < |t| ==> !IsSpace(t[i])) && EndsToken(rest)
    ensures TakeWhileNot(IsSpace, t + rest) == t
  {
    var text := t + rest;
    var r := TakeWhileNot(IsSpace, text);
    assert forall i :: 0 <= i < |t| ==> text[i] == t[i];
    assert rest != "" ==> text[|t|] == rest[0];
    assert r == text[..|r|] && t == text[..|t|];
    assert forall i :: 0 <= i < |r| ==> text[i] == r[i];
    assert |r| == |t|;
  }

  lemma {:induction false} PadDropped(pad: string, t: string, rest: string)
    requires AllSpaces(pad) && (t != "" ==> !IsSpace(t[0])) && (t == "" ==> rest == "")
    ensures DropSpaces(pad + t + rest) == t + rest
  {
    if pad == "" {
      assert pad + t + rest == t + rest;
    } else {
      assert (pad + t + rest)[1..] == pad[1..] + t + rest;
      PadDropped(pad[1..], t, rest);
    }
  }

  /** A line that gives a command. */
  lemma CommandLine(v: string)
    requires v != "" && !IsSpace(v[0])
    ensures Value("command", "command = " + v) == Some(v)
  {
    var line := "command = " + v;
    assert DropSpaces(line) == line;
    assert line[7..] == " = " + v;
    assert (" = " + v)[1..] == "= " + v;
    assert DropSpaces("= " + v) == "= " + v;
    assert ("= " + v)[1..] == " " + v;
    assert (" " + v)[1..] == v;
    assert DropSpaces(" " + v) == DropSpaces(v) == v;
  }

  /** The command is the first token of the line, whatever arguments follow. */
  lemma CommandOf(c: string, args: string, rest: seq<string>)
    requires IsToken(c) && EndsToken(args)
    ensures Command(["command = " + (c + args)] + rest) == c
  {
    assert (c + args)[0] == c[0];
    CommandLine(c + args);
    FirstToken(c, args);
    hide Value, TakeWhileNot;
  }

  lemma CommandReads(c: string, rest: seq<string>)
    requires IsToken(c)
    ensures Command(["command = " + c] + rest) == c
  {
    assert c + "" == c;
    CommandOf(c, "", rest);
  }

  /** A line that gives a value: white space is allowed before the key, around the equals sign, and nowhere needed. */
  lemma ValueReads(before: string, key: string, around: string, after: string, v: string)
    requires AllSpaces(before) && AllSpaces(around) && AllSpaces(after) && key != "" && !IsSpace(key[0])
    requires v != "" ==> !IsSpace(v[0])
    ensures Value(key, before + key + (around + "=" + (after + v + ""))) == Some(v)
  {
    var tail := after + v + "";
    var rest := around + "=" + tail;
    PadDropped(before, key, rest);
    assert (key + rest)[|key|..] == rest;
    PadDropped(around, "=", tail);
    assert ("=" + tail)[1..] == tail && ("=" + tail)[0] == '=';
    PadDropped(after, v, "");
    assert v + "" == v;
    hide DropSpaces;
  }

  const TOYBOX := "/bin/toybox"

  /** What follows the toybox binary on a command line: white space, the applet, and its arguments. */
  function ToyboxCommand(pad: string, applet: string, args: string): string {
    "command = " + (TOYBOX + (pad + applet + args))
  }

  /** The applet is the first token after the toybox binary, whatever arguments follow. */
  lemma AppletReads(pad: string, applet: string, args: string, rest: seq<string>)
    requires pad != "" && AllSpaces(pad) && IsToken(applet) && EndsToken(args)
    ensures Command([ToyboxCommand(pad, applet, args)] + rest) == TOYBOX
    ensures Applet([ToyboxCommand(pad, applet, args)] + rest) == applet
  {
    var tail := pad + applet + args;
    var v := TOYBOX + tail;
    assert IsToken(TOYBOX) && |TOYBOX| == 11;
    assert tail[0] == pad[0];
    CommandOf(TOYBOX, tail, rest);
    assert v[0] == TOYBOX[0];
    CommandLine(v);
    assert v[11..] == tail && v[11] == tail[0] && |v| > 11;
    PadDropped(pad, applet, args);
    FirstToken(applet, args);
    hide Value, TakeWhileNot, DropSpaces;
  }

  /** The first line with a command decides, whatever other lines say; a command that is left empty does too. */
  lemma {:induction false} FirstCommandDecides(before: seq<string>, line: string, c: string, args: string,
                                               after: seq<string>)
    requires forall l :: l in before ==> Value("command", l).None?
    requires Value("command", line) == Some(c + args) && (c == "" || IsToken(c)) && EndsToken(args)
    ensures Command(before + [line] + after) == c
  {
    hide Value, TakeWhileNot;
    if before == [] {
      assert (before + [line] + after)[1..] == after && (before + [line] + after)[0] == line;
      FirstToken(c, args);
    } else {
      assert (before + [line] + after)[1..] == before[1..] + [line] + after && before[0] in before;
      FirstCommandDecides(before[1..], line, c, args, after);
    }
  }

  /** The line gives a command that is the toybox binary and something more. */
  predicate RunsToybox(line: string) {
    match Value("command", line)
    case Some(v) => TOYBOX <= v && |v| > |TOYBOX| && IsSpace(v[|TOYBOX|])
    case None => false
  }

  /** The first line that runs toybox with something more decides which applet is meant. */
  lemma {:induction false} FirstAppletDecides(before: seq<string>, pad: string, applet: string, args: string,
                                              after: seq<string>)
    requires forall l :: l in before ==> !RunsToybox(l)
    requires pad != "" && AllSpaces(pad) && IsToken(applet) && EndsToken(args)
    ensures Applet(before + [ToyboxCommand(pad, applet, args)] + after) == applet
  {
    var line := ToyboxCommand(pad, applet, args);
    hide Value, TakeWhileNot, DropSpaces, ToyboxCommand;
    if before == [] {
      assert before + [line] + after == [line] + after;
      AppletReads(pad, applet, args, after);
    } else {
      assert (before + [line] + after)[1..] == before[1..] + [line] + after && before[0] in before;
      assert !RunsToybox(before[0]) && |TOYBOX| == 11;
      FirstAppletDecides(before[1..], pad, applet, args, after);
    }
  }

  // ----- one line, two readers -----

  /** The words of a value once the white space at its start is gone: leading words are trimmed, up to and
      including the first that has something left. */
  function TrimFront(words: seq<string>): seq<string> {
    if words == [] then [] else
    var t := DropSpaces(words[0]);
    if t == "" then TrimFront(words[1..]) else [t] + words[1..]
  }

  lemma TokenIs(s: string, t: string, rest: string)
    requires s == t + rest && forall i :: 0 <= i < |t| ==> !SplitsWords(t[i])
    requires rest == "" || SplitsWords(rest[0])
    ensures TakeWhileNot(SplitsWords, s) == t
  {
    var first := TakeWhileNot(SplitsWords, s);
    assert first == s[..|first|] && t == s[..|t|];
  }

  lemma {:induction false} DropSpacesOfWord(t: string, rest: string)
    ensures DropSpaces(t + rest) == if DropSpaces(t) == "" then DropSpaces(rest) else DropSpaces(t) + rest
  {
    if t == "" {
      assert t + rest == rest;
    } else if IsSpace(t[0]) {
      assert (t + rest)[1..] == t[1..] + rest;
      DropSpacesOfWord(t[1..], rest);
    }
  }

  lemma {:induction false} WordsUnderSpaces(s: string)
    ensures Words(DropSpaces(s)) == TrimFront(Words(s))
    decreases |s|
  {
    if s != "" && SplitsWords(s[0]) {
      WordsUnderSpaces(s[1..]);
    } else if s != "" {
      var t := TakeWhileNot(SplitsWords, s);
      var rest := s[|t|..];
      assert s == t + rest;
      DropSpacesOfWord(t, rest);
      DropSpacesWord(t);
      assert Words(s) == [t] + Words(rest);
      var u := DropSpaces(t);
      if u == "" {
        WordsUnderSpaces(rest);
      } else {
        TokenIs(u + rest, u, rest);
        assert (u + rest)[|u|..] == rest;
      }
    }
  }

  /** What the strict expression lists on a line is what the lenient one reads there, but for the leading words. */
  lemma LineReadsExactly(line: string)
    requires StrictValue(line).Some?
    ensures Value("depends-on", line).Some?
    ensures Words(Value("depends-on", line).value) == TrimFront(Words(StrictValue(line).value))
  {
    hide Words;
    StrictIsLoose(line);
    WordsUnderSpaces(StrictValue(line).value);
  }

  lemma {:induction false} PlainInFront(words: seq<string>, w: string)
    requires w in words && IsPlain(w) && forall x :: x in words ==> IsWord(x)
    ensures w in TrimFront(words)
  {
    assert words[0] in words;
    DropSpacesWord(words[0]);
    if DropSpaces(words[0]) == "" {
      PlainInFront(words[1..], w);
    }
  }

  /** A plain service that the boot list names is also a dependency of the boot unit. */
  lemma {:induction false} ListedAreDependencies(lines: seq<string>, w: string)
    requires w in Listed(lines)
    ensures IsPlain(w) ==> w in Dependencies(lines)
  {
    hide Words, Value, StrictValue;
    var v := StrictValue(lines[0]);
    if v.Some? && w in Words(v.value) {
      if IsPlain(w) {
        LineReadsExactly(lines[0]);
        PlainInFront(Words(v.value), w);
      }
    } else {
      ListedAreDependencies(lines[1..], w);
    }
  }

  lemma StrictIsLoose(line: string)
    requires StrictValue(line).Some?
    ensures Value("depends-on", line) == Some(DropSpaces(StrictValue(line).value))
  {
    var v := StrictValue(line).value;
    assert line == "depends-on = " + v;
    assert DropSpaces(line) == line;
    assert line[10..] == " = " + v;
    assert (" = " + v)[1..] == "= " + v;
    assert DropSpaces("= " + v) == "= " + v;
    assert ("= " + v)[1..] == " " + v;
    assert (" " + v)[1..] == v;
    assert DropSpaces(" " + v) == DropSpaces(v);
  }
}
