/** Parsing and validating rule keys, and compiling a rule table: src/rules.rs.
    The URL standard's host parser is the parameter `parse`. */
module RuleKeys {
  import opened Options
  import opened Text
  import opened Rules

  datatype KeyError =
    | EmptyPattern | Reserved | EveryHost | StarDot
    | AnyScheme | UpperScheme | OtherScheme
    | Path | Query | Fragment | Userinfo
    | BadColon | Port | AfterBracket
    | NoHost | ManyDots | Star | TrailingDot | EmptyLabel
    | BadHost | DottedAddress | MappedAddress | NotNormal

  datatype ParsedKey = ParsedKey(host: string, exact: bool, scheme: Option<string>)

  datatype Parsed = Ok(key: ParsedKey) | Err(error: KeyError)

  type HostParser = string -> Option<Host>

  predicate IsTail(c: char) { c == '/' || c == '?' || c == '#' }

  predicate IsColon(c: char) { c == ':' }

  function Undotted(s: string): string { if StartsWith(s, ".") then s[1..] else s }

  /** The scheme before "://", unless a path, query or fragment starts first. */
  function SchemeOf(key: string): (r: (Option<string>, string))
  {
    var at := Find(key, "://");
    if at.Some? && FindChar(key[..at.value], IsTail).None? then (Some(key[..at.value]), key[at.value + 3..]) else (None, key)
  }

  function ParseKey(key: string, parse: HostParser): Parsed
  {
    if key == "" then Err(EmptyPattern)
    else if StartsWith(key, "glob:") || StartsWith(key, "re:") then Err(Reserved)
    else
      var (scheme, rest) := SchemeOf(key);
      var tail := FindChar(rest, IsTail);
      var authority := if tail.None? then rest else rest[..tail.value];
      var name := HostOnly(Undotted(authority));
      if name == "*" then Err(EveryHost)
      else if StartsWith(name, "*.") then Err(StarDot)
      else if scheme.Some? && !SchemeKnown(scheme.value) then Err(SchemeError(scheme.value))
      else if tail.Some? then Err(TailError(rest[tail.value]))
      else if '@' in authority then Err(Userinfo)
      else ParseAuthority(authority, scheme, parse)
  }

  function HostOnly(dotless: string): string
  {
    if StartsWith(dotless, "[") then dotless
    else
      var colon := FindChar(dotless, IsColon);
      if colon.None? then dotless else dotless[..colon.value]
  }

  predicate SchemeKnown(s: string) { s == "http" || s == "https" }

  function SchemeError(s: string): KeyError
  {
    if s == "*" then AnyScheme else if SchemeKnown(AsciiLower(s)) then UpperScheme else OtherScheme
  }

  function TailError(c: char): KeyError
  {
    if c == '/' then Path else if c == '?' then Query else Fragment
  }

  function ParseAuthority(authority: string, scheme: Option<string>, parse: HostParser): Parsed
  {
    var port := PortError(authority);
    if port.Some? then Err(port.value)
    else
      var exact := StartsWith(authority, ".");
      ParseHost(Undotted(authority), exact, scheme, parse)
  }

  /** What follows the host, outside an IPv6 literal's brackets. */
  function PortError(authority: string): Option<KeyError>
  {
    if StartsWith(Undotted(authority), "[") then
      var close := FindChar(authority, IsCloser);
      if close.None? || close.value + 1 == |authority| then None
      else if authority[close.value + 1] == ':' then Some(Port)
      else Some(AfterBracket)
    else
      var colon := FindChar(authority, IsColon);
      if colon.None? then None
      else if ':' in authority[colon.value + 1..] then Some(BadColon)
      else Some(Port)
  }

  function ParseHost(bare: string, exact: bool, scheme: Option<string>, parse: HostParser): Parsed
  {
    if bare == "" then Err(NoHost)
    else if bare[0] == '.' then Err(ManyDots)
    else if '*' in bare then Err(Star)
    else if bare[|bare| - 1] == '.' then Err(TrailingDot)
    else if bare[0] != '[' && HasEmptyLabel(bare) then Err(EmptyLabel)
    else
      var host := parse(bare);
      if host.None? then Err(BadHost)
      else if !host.value.Domain? && exact then Err(DottedAddress)
      else if host.value.Ipv6? && host.value.mapped.Some? then Err(MappedAddress)
      else if host.value.text != bare then Err(NotNormal)
      else Ok(ParsedKey(host.value.text, exact, scheme))
  }

  predicate HasEmptyLabel(s: string) { "" in SplitOn(s, '.') }

  // ---- Normal form ----

  function Dot(exact: bool): string { if exact then "." else "" }

  function Print(p: ParsedKey): string
  {
    (if p.scheme.Some? then p.scheme.value + "://" else "") + Dot(p.exact) + p.host
  }

  /** A host in the spelling its parser prints, with nothing around it. */
  predicate NormalHost(host: string, exact: bool, parse: HostParser)
  {
    && host != "" && host[0] != '.' && host[|host| - 1] != '.'
    && '*' !in host && '@' !in host && FindChar(host, IsTail).None?
    && (if host[0] == '[' then FindChar(host, IsCloser) in {None, Some(|host| - 1)}
        else FindChar(host, IsColon).None? && !HasEmptyLabel(host))
    && var h := parse(host);
       h.Some? && h.value.text == host && (exact ==> h.value.Domain?) && !(h.value.Ipv6? && h.value.mapped.Some?)
  }

  predicate Normal(p: ParsedKey, parse: HostParser)
  {
    NormalHost(p.host, p.exact, parse) && (p.scheme.Some? ==> SchemeKnown(p.scheme.value))
  }

  lemma {:induction false} UndottedOf(authority: string)
    ensures authority == Dot(StartsWith(authority, ".")) + Undotted(authority)
  {
  }

  lemma {:induction false} SchemeOfMeaning(key: string)
    ensures var (scheme, rest) := SchemeOf(key);
      key == (if scheme.Some? then scheme.value + "://" else "") + rest
  {
    FindMeaning(key, "://");
    var at := Find(key, "://");
    if at.Some? {
      assert key == key[..at.value] + key[at.value..at.value + 3] + key[at.value + 3..];
    }
  }

  /** Whatever is accepted is printed back, and is in normal form. */
  lemma {:induction false} PrintParse(key: string, parse: HostParser)
    requires ParseKey(key, parse).Ok?
    ensures var p := ParseKey(key, parse).key;
      Print(p) == key && Normal(p, parse)
  {
    var (scheme, authority) := SchemeOf(key);
    Accepted(key, parse);
    AuthorityNormal(authority, scheme, parse);
    PrintSplit(key, ParseKey(key, parse).key);
  }

  lemma {:induction false} PrintSplit(key: string, p: ParsedKey)
    requires var (scheme, authority) := SchemeOf(key);
      p.scheme == scheme && p.exact == StartsWith(authority, ".") && p.host == Undotted(authority)
    ensures Print(p) == key
  {
    SchemeOfMeaning(key);
    var (scheme, authority) := SchemeOf(key);
    UndottedOf(authority);
    Regroup(p, authority);
  }

  lemma {:induction false} Regroup(p: ParsedKey, authority: string)
    requires authority == Dot(p.exact) + p.host
    ensures Print(p) == (if p.scheme.Some? then p.scheme.value + "://" else "") + authority
  {
  }

  lemma {:induction false} Accepted(key: string, parse: HostParser)
    requires ParseKey(key, parse).Ok?
    ensures var (scheme, authority) := SchemeOf(key);
      && ParseKey(key, parse) == ParseAuthority(authority, scheme, parse)
      && FindChar(authority, IsTail).None? && '@' !in authority
      && (scheme.Some? ==> SchemeKnown(scheme.value))
  {
    var (scheme, rest) := SchemeOf(key);
    var tail := FindChar(rest, IsTail);
    assert scheme.Some? ==> SchemeKnown(scheme.value);
    assert tail.None?;
    assert '@' !in rest;
    assert ParseKey(key, parse) == ParseAuthority(rest, scheme, parse);
  }

  lemma {:induction false} FindCharDotted(s: string, p: char -> bool)
    requires !p('.')
    ensures FindChar("." + s, p) == var r := FindChar(s, p); if r.None? then None else Some(r.value + 1)
  {
  }

  lemma {:induction false} AuthorityNormal(authority: string, scheme: Option<string>, parse: HostParser)
    requires ParseAuthority(authority, scheme, parse).Ok? && FindChar(authority, IsTail).None? && '@' !in authority
    ensures var p := ParseAuthority(authority, scheme, parse).key;
      && p.host == Undotted(authority) && p.exact == StartsWith(authority, ".") && p.scheme == scheme
      && NormalHost(p.host, p.exact, parse)
  {
    BareNormal(authority);
  }

  lemma {:induction false} UndottedFinds(authority: string, p: char -> bool)
    requires !p('.')
    ensures FindChar(Undotted(authority), p)
         == var r := FindChar(authority, p); if r.None? || !StartsWith(authority, ".") then r else Some(r.value - 1)
  {
    var bare := Undotted(authority);
    if StartsWith(authority, ".") {
      assert authority == "." + bare;
      FindCharDotted(bare, p);
    }
  }

  /** What the authority's checks say of the host in it. */
  lemma {:induction false} BareNormal(authority: string)
    requires PortError(authority).None? && FindChar(authority, IsTail).None? && '@' !in authority && Undotted(authority) != ""
    ensures var bare := Undotted(authority);
      && FindChar(bare, IsTail).None? && '@' !in bare
      && if bare[0] == '[' then FindChar(bare, IsCloser) in {None, Some(|bare| - 1)} else FindChar(bare, IsColon).None?
  {
    UndottedFinds(authority, IsTail);
    if Undotted(authority)[0] == '[' {
      UndottedFinds(authority, IsCloser);
    } else {
      UndottedFinds(authority, IsColon);
    }
  }

  // ---- Every key in normal form is accepted ----

  lemma {:induction false} NoPrefix(key: string, pat: string, k: nat)
    requires k < |pat| && (k < |key| ==> key[k] != pat[k])
    ensures !StartsWith(key, pat)
  {
  }

  lemma {:induction false} NoneWithin(s: string, p: char -> bool)
    ensures FindChar(s, p).None? <==> forall i :: 0 <= i < |s| ==> !p(s[i])
  {
  }

  /** Without a path character there is no "://" either. */
  lemma {:induction false} NoSchemeMark(s: string)
    requires FindChar(s, IsTail).None?
    ensures Find(s, "://").None?
  {
    NoneWithin(s, IsTail);
    forall i | 0 <= i < |s| ensures !StartsWith(s[i..], "://") {
      if i + 1 < |s| { assert !IsTail(s[i + 1]); }
      NoPrefix(s[i..], "://", 1);
    }
    FindFrom(s, "://", |s|);
    assert s[|s|..] == "";
  }

  lemma {:induction false} SchemeMark(scheme: string, rest: string)
    requires SchemeKnown(scheme)
    ensures SchemeOf(scheme + "://" + rest) == (Some(scheme), rest)
  {
    var key, n := scheme + "://" + rest, |scheme|;
    forall i | 0 <= i < n ensures !StartsWith(key[i..], "://") {
      assert key[i] == scheme[i];
      NoPrefix(key[i..], "://", 0);
    }
    FindFrom(key, "://", n);
    assert key == scheme + ("://" + rest);
    assert key[n..] == "://" + rest;
    assert StartsWith(key[n..], "://");
    assert Find(key, "://") == Some(n);
    assert key[..n] == scheme && key[n + 3..] == rest;
  }

  lemma {:induction false} DottedHost(host: string, exact: bool, parse: HostParser)
    requires NormalHost(host, exact, parse)
    ensures var authority := Dot(exact) + host;
      && Undotted(authority) == host && StartsWith(authority, ".") == exact
      && FindChar(authority, IsTail).None? && '@' !in authority && PortError(authority).None?
  {
    var authority := Dot(exact) + host;
    if exact {
      assert authority == "." + host && authority[1..] == host;
      FindCharDotted(host, IsTail);
      FindCharDotted(host, IsCloser);
      FindCharDotted(host, IsColon);
    } else {
      assert authority == host;
    }
    assert authority[0] == if exact then '.' else host[0];
    assert StartsWith(host, "[") <==> host[0] == '[';
  }

  lemma {:induction false} NormalParses(host: string, exact: bool, scheme: Option<string>, parse: HostParser)
    requires NormalHost(host, exact, parse)
    ensures ParseAuthority(Dot(exact) + host, scheme, parse) == Ok(ParsedKey(host, exact, scheme))
  {
    DottedHost(host, exact, parse);
  }

  lemma {:induction false} NotWild(host: string, exact: bool, parse: HostParser)
    requires NormalHost(host, exact, parse)
    ensures '*' !in HostOnly(host)
  {
  }

  /** No normal host looks like a reserved prefix. */
  lemma {:induction false} NotReserved(p: ParsedKey, parse: HostParser)
    requires Normal(p, parse)
    ensures Print(p) != "" && !StartsWith(Print(p), "glob:") && !StartsWith(Print(p), "re:")
  {
    var key := Print(p);
    if p.scheme.Some? {
      assert key[0] == 'h';
      NoPrefix(key, "glob:", 0);
      NoPrefix(key, "re:", 0);
    } else if p.exact {
      assert key[0] == '.';
      NoPrefix(key, "glob:", 0);
      NoPrefix(key, "re:", 0);
    } else {
      assert key == p.host;
      HostNotReserved(p.host);
    }
  }

  lemma {:induction false} HostNotReserved(host: string)
    requires host != "" && (host[0] != '[' ==> FindChar(host, IsColon).None?)
    ensures !StartsWith(host, "glob:") && !StartsWith(host, "re:")
  {
    if host[0] == '[' {
      NoPrefix(host, "glob:", 0);
      NoPrefix(host, "re:", 0);
    } else {
      NoneWithin(host, IsColon);
      assert forall i :: 0 <= i < |host| ==> !IsColon(host[i]);
      NoPrefix(host, "glob:", 4);
      NoPrefix(host, "re:", 2);
    }
  }

  lemma {:induction false} SchemeOfPrint(p: ParsedKey)
    requires p.scheme.Some? ==> SchemeKnown(p.scheme.value)
    requires FindChar(Dot(p.exact) + p.host, IsTail).None?
    ensures SchemeOf(Print(p)) == (p.scheme, Dot(p.exact) + p.host)
  {
    var authority := Dot(p.exact) + p.host;
    Regroup(p, authority);
    if p.scheme.Some? {
      SchemeMark(p.scheme.value, authority);
    } else {
      NoSchemeMark(authority);
      assert Print(p) == authority;
    }
  }

  lemma {:induction false} NoStar(name: string)
    requires '*' !in name
    ensures name != "*" && !StartsWith(name, "*.")
  {
    NoPrefix(name, "*.", 0);
    assert "*"[0] == '*';
  }

  lemma {:induction false} ParsePrint(p: ParsedKey, parse: HostParser)
    requires Normal(p, parse)
    ensures ParseKey(Print(p), parse) == Ok(p)
  {
    NotReserved(p, parse);
    DottedHost(p.host, p.exact, parse);
    SchemeOfPrint(p);
    NotWild(p.host, p.exact, parse);
    NoStar(HostOnly(p.host));
    NormalParses(p.host, p.exact, p.scheme, parse);
  }

  /** A key is accepted as `p` exactly when it is `p` printed, in normal form. */
  lemma {:induction false} AcceptedIff(key: string, p: ParsedKey, parse: HostParser)
    ensures ParseKey(key, parse) == Ok(p) <==> Print(p) == key && Normal(p, parse)
  {
    if ParseKey(key, parse) == Ok(p) {
      PrintParse(key, parse);
    }
    if Print(p) == key && Normal(p, parse) {
      ParsePrint(p, parse);
    }
  }

  /** Different accepted keys are different patterns. */
  lemma {:induction false} KeysAreInjective(a: string, b: string, parse: HostParser)
    requires ParseKey(a, parse).Ok? && ParseKey(a, parse) == ParseKey(b, parse)
    ensures a == b
  {
    PrintParse(a, parse);
    PrintParse(b, parse);
  }

  // ---- Compiling a table ----

  datatype Fault = BadKey(error: KeyError) | BadFields

  datatype Entry = Good(rule: CompiledRule) | Bad(fault: Fault)

  datatype Compiled = Ready(rules: RuleSet) | Failed(at: nat, fault: Fault) | Clashing(pair: (nat, nat))

  predicate FieldsOk(rule: UrlRule)
  {
    rule.action.Allow? ||
    (&& rule.message.Some? && Trim(rule.message.value, IsWhitespace) != ""
     && (rule.reason.Some? ==> rule.reason.value != "" && FindChar(rule.reason.value, NotReasonChar).None?))
  }

  predicate NotReasonChar(c: char) { !('a' <= c <= 'z' || '0' <= c <= '9' || c == '_') }

  predicate EntryOk(entry: (string, UrlRule), parse: HostParser) { ParseKey(entry.0, parse).Ok? && FieldsOk(entry.1) }

  function CompileOne(entry: (string, UrlRule), parse: HostParser): CompiledRule
    requires ParseKey(entry.0, parse).Ok?
  {
    var p := ParseKey(entry.0, parse).key;
    CompiledRule(entry.0, p.host, p.exact, p.scheme, entry.1)
  }

  ghost predicate KeysDistinct(entries: seq<(string, UrlRule)>)
  {
    forall i, j :: 0 <= i < j < |entries| ==> entries[i].0 != entries[j].0
  }

  ghost predicate CompiledFrom(rules: seq<CompiledRule>, entries: seq<(string, UrlRule)>, parse: HostParser)
  {
    && |rules| <= |entries|
    && forall i :: 0 <= i < |rules| ==> EntryOk(entries[i], parse) && rules[i] == CompileOne(entries[i], parse)
  }

  /** The duplicate check never fires: distinct accepted keys are distinct
      patterns. */
  lemma {:induction false} NeverDuplicate(rules: seq<CompiledRule>, entries: seq<(string, UrlRule)>, parse: HostParser)
    requires KeysDistinct(entries) && CompiledFrom(rules, entries, parse)
    ensures NoDuplicates(rules) && DistinctKeys(rules)
  {
    forall i, j | 0 <= i < j < |rules| ensures PatternOf(rules[i]) != PatternOf(rules[j]) {
      if PatternOf(rules[i]) == PatternOf(rules[j]) {
        KeysAreInjective(entries[i].0, entries[j].0, parse);
      }
    }
  }

  /** Every entry before the first bad one, and that one's fault. */
  method CompileEntries(entries: seq<(string, UrlRule)>, parse: HostParser) returns (rules: seq<CompiledRule>, fault: Option<Fault>)
    ensures |rules| <= |entries| && CompiledFrom(rules, entries, parse)
    ensures fault.None? ==> |rules| == |entries|
    ensures fault.Some? ==> |rules| < |entries| && !EntryOk(entries[|rules|], parse)
  {
    rules := [];
    while |rules| < |entries|
      invariant |rules| <= |entries| && CompiledFrom(rules, entries, parse)
      decreases |entries| - |rules|
    {
      var entry := CompileEntry(entries[|rules|], parse);
      if entry.Bad? {
        return rules, Some(entry.fault);
      }
      CompiledSnoc(rules, entries, parse, entry.rule);
      rules := rules + [entry.rule];
    }
    fault := None;
  }

  lemma {:induction false} CompiledSnoc(rules: seq<CompiledRule>, entries: seq<(string, UrlRule)>, parse: HostParser, rule: CompiledRule)
    requires |rules| < |entries| && CompiledFrom(rules, entries, parse)
    requires EntryOk(entries[|rules|], parse) && rule == CompileOne(entries[|rules|], parse)
    ensures CompiledFrom(rules + [rule], entries, parse)
  {
    var rules', n := rules + [rule], |rules|;
    forall i | 0 <= i < n + 1 ensures EntryOk(entries[i], parse) && rules'[i] == CompileOne(entries[i], parse) {
      if i < n {
        assert rules'[i] == rules[i];
      } else {
        assert rules'[n] == rule;
      }
    }
  }

  method CompileEntry(entry: (string, UrlRule), parse: HostParser) returns (r: Entry)
    ensures r.Good? <==> EntryOk(entry, parse)
    ensures r.Good? ==> r.rule == CompileOne(entry, parse)
  {
    var parsed := ParseKey(entry.0, parse);
    if parsed.Err? {
      return Bad(BadKey(parsed.error));
    }
    if !FieldsOk(entry.1) {
      return Bad(BadFields);
    }
    return Good(CompileOne(entry, parse));
  }

  ghost predicate AllOk(entries: seq<(string, UrlRule)>, n: nat, parse: HostParser)
    requires n <= |entries|
  {
    forall i :: 0 <= i < n ==> EntryOk(entries[i], parse)
  }

  /** Compile a table: it is ready when every entry is good, and otherwise the
      first bad entry is named. */
  method Compile(entries: seq<(string, UrlRule)>, parse: HostParser) returns (r: Compiled)
    requires KeysDistinct(entries)
    ensures r.Ready? <==> AllOk(entries, |entries|, parse)
    ensures r.Ready? ==> Indexed(r.rules) && |r.rules.rules| == |entries| && CompiledFrom(r.rules.rules, entries, parse) && NoDuplicates(r.rules.rules)
    ensures r.Failed? ==> r.at < |entries| && !EntryOk(entries[r.at], parse) && AllOk(entries, r.at, parse)
    ensures !r.Clashing?
  {
    var rules, fault := CompileEntries(entries, parse);
    if fault.Some? {
      return Failed(|rules|, fault.value);
    }
    NeverDuplicate(rules, entries, parse);
    var clash := CheckDuplicates(rules);
    match clash {
      case Some(pair) =>
        r := Clashing(pair);
      case None =>
        var compiled := FromCompiled(rules);
        r := Ready(compiled);
    }
  }
}
