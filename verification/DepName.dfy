/** The name part of a dependency token such as "rg>=14.1 " (`parse_dep_name`). */
module DepName {
  import opened Common

  /** Unicode White_Space, the set behind Rust's split_whitespace and trim. */
  predicate IsSpace(c: char) {
    '\t' <= c <= '\r' || c == ' ' || c == '\U{0085}' || c == '\U{00A0}' || c == '\U{1680}' ||
    '\U{2000}' <= c <= '\U{200A}' || c == '\U{2028}' || c == '\U{2029}' || c == '\U{202F}' ||
    c == '\U{205F}' || c == '\U{3000}'
  }

  predicate IsConstraint(c: char) {
    c == '=' || c == '<' || c == '>' || c == '~'
  }

  /** Where a dependency name stops. */
  predicate Stops(c: char) {
    IsSpace(c) || IsConstraint(c)
  }

  function TrimStart(s: string): string {
    if s != "" && IsSpace(s[0]) then TrimStart(s[1..]) else s
  }

  function TrimEnd(s: string): string {
    if s != "" && IsSpace(s[|s| - 1]) then TrimEnd(s[..|s| - 1]) else s
  }

  /** The part of `s` before the first character satisfying `stop`. */
  function Before(stop: char -> bool, s: string): (r: string)
    ensures r <= s
    ensures forall i :: 0 <= i < |r| ==> !stop(s[i])
    ensures |r| < |s| ==> stop(s[|r|])
  {
    if s == "" || stop(s[0]) then "" else [s[0]] + Before(stop, s[1..])
  }

  /** The first token of split_whitespace, if there is one. */
  function FirstToken(s: string): Option<string> {
    var body := TrimStart(s);
    if body == "" then None else Some(Before(IsSpace, body))
  }

  function ParseDepName(dep: string): string {
    var token := match FirstToken(dep) case Some(t) => t case None => dep;
    TrimEnd(TrimStart(Before(IsConstraint, token)))
  }

  /** `name` is the longest run of name characters after the leading white space of `dep`. */
  ghost predicate IsNamePart(dep: string, name: string) {
    var body := TrimStart(dep);
    name <= body && (forall i :: 0 <= i < |name| ==> !Stops(name[i])) &&
    (|name| < |body| ==> Stops(body[|name|]))
  }

  lemma {:induction false} TrimStartOfSpaces(s: string)
    requires forall i :: 0 <= i < |s| ==> IsSpace(s[i])
    ensures TrimStart(s) == ""
  {
    if s != "" {
      TrimStartOfSpaces(s[1..]);
    }
  }

  lemma {:induction false} TrimStartAllSpaces(s: string)
    requires TrimStart(s) == ""
    ensures forall i :: 0 <= i < |s| ==> IsSpace(s[i])
  {
    if s != "" {
      TrimStartAllSpaces(s[1..]);
      forall i | 0 <= i < |s| ensures IsSpace(s[i]) {
        if i > 0 { assert s[i] == s[1..][i - 1]; }
      }
    }
  }

  /** The parser returns exactly the name part, whatever follows it. */
  lemma ParseIsNamePart(dep: string)
    ensures IsNamePart(dep, ParseDepName(dep))
  {
    var body := TrimStart(dep);
    if body == "" {
      TrimStartAllSpaces(dep);
      var b := Before(IsConstraint, dep);
      assert forall i :: 0 <= i < |b| ==> IsSpace(b[i]);
      TrimStartOfSpaces(b);
    } else {
      var token := Before(IsSpace, body);
      var name := Before(IsConstraint, token);
      assert forall i :: 0 <= i < |name| ==> name[i] == token[i] == body[i];
      if |name| < |body| {
        if |name| < |token| {
          assert IsConstraint(token[|name|]);
        }
      }
    }
  }

  lemma {:induction false} TrimStartSkipsSpaces(pad: string, s: string)
    requires forall i :: 0 <= i < |pad| ==> IsSpace(pad[i])
    requires s != "" ==> !IsSpace(s[0])
    ensures TrimStart(pad + s) == s
  {
    if pad == "" {
      assert pad + s == s;
    } else {
      assert (pad + s)[1..] == pad[1..] + s;
      TrimStartSkipsSpaces(pad[1..], s);
    }
  }

  /** Round trip: a name written with any padding, constraint and version parses back to itself. */
  lemma NameRoundTrip(pad: string, name: string, rest: string)
    requires forall i :: 0 <= i < |pad| ==> IsSpace(pad[i])
    requires name != "" && forall i :: 0 <= i < |name| ==> !Stops(name[i])
    requires rest != "" ==> Stops(rest[0])
    ensures ParseDepName(pad + name + rest) == name
  {
    var dep := pad + name + rest;
    assert dep == pad + (name + rest);
    TrimStartSkipsSpaces(pad, name + rest);
    ParseIsNamePart(dep);
    assert IsNamePart(dep, name);
  }
}
