/** The markdown side of link rewriting in src/handles.rs: where links are,
    and what replacing their URLs does to the text. */
module LinkText {
  import opened Options
  import opened Text

  const OPENING := "](http"

  // ---- Closing parentheses ----

  function FirstClose(s: string): (r: Option<nat>)
    ensures r.Some? ==> r.value < |s| && s[r.value] == ')'
  {
    if s == "" then None
    else if s[0] == ')' then Some(0)
    else
      var r := FirstClose(s[1..]);
      if r.None? then None else Some(r.value + 1)
  }

  /** The first ')' at depth zero, starting from `depth`. */
  function CloseAt(s: string, depth: nat): (r: Option<nat>)
    ensures r.Some? ==> r.value < |s| && s[r.value] == ')'
  {
    if s == "" then None
    else if s[0] == ')' && depth == 0 then Some(0)
    else
      var deeper := if s[0] == '(' then depth + 1 else if s[0] == ')' then depth - 1 else depth;
      var r := CloseAt(s[1..], deeper);
      if r.None? then None else Some(r.value + 1)
  }

  /** Where a URL starting `s` ends: its balanced ')', or failing that the
      first ')' of all. */
  function BalancedClose(s: string): (r: Option<nat>)
    ensures r.Some? ==> r.value < |s| && s[r.value] == ')'
  {
    var r := CloseAt(s, 0);
    if r.Some? then r else FirstClose(s)
  }

  method FindClose(s: string) returns (r: Option<nat>)
    ensures r == BalancedClose(s)
  {
    var depth, i := 0, 0;
    assert s[0..] == s;
    while i < |s|
      invariant i <= |s|
      invariant CloseAt(s, 0) == Moved(CloseAt(s[i..], depth), i)
    {
      CloseAtFrom(s, i, depth);
      if s[i] == '(' {
        depth := depth + 1;
      } else if s[i] == ')' {
        if depth == 0 {
          return Some(i);
        }
        depth := depth - 1;
      }
      i := i + 1;
    }
    r := FirstClose(s);
  }

  function Moved(r: Option<nat>, n: nat): Option<nat> { if r.None? then None else Some(n + r.value) }

  lemma {:induction false} CloseAtFrom(s: string, i: nat, depth: nat)
    requires i < |s|
    ensures Moved(CloseAt(s[i..], depth), i) ==
      if s[i] == ')' && depth == 0 then Some(i)
      else Moved(CloseAt(s[i + 1..], if s[i] == '(' then depth + 1 else if s[i] == ')' then depth - 1 else depth), i + 1)
  {
  }

  predicate HasSpace(s: string) { s != "" && (IsWhitespace(s[0]) || HasSpace(s[1..])) }

  // ---- Links ----

  /** What the rewriter does at the next "](http": nothing more, copy through
      position `cut`, or replace the `len` characters at `start`. */
  datatype Next = Stop | Copy(cut: nat) | Swap(start: nat, len: nat)

  function NextLink(t: string): (r: Next)
    ensures Fits(t, r) && (r.Swap? ==> r.start >= 2)
  {
    NextFor(t, Find(t, OPENING))
  }

  /** What is done about a "](http" at `at`. */
  function NextFor(t: string, at: Option<nat>): (r: Next)
    requires at.Some? ==> at.value + 6 <= |t|
    ensures Fits(t, r) && (r.Swap? ==> r.start >= 2)
  {
    if at.None? then Stop else LinkAt(t, at.value + 2)
  }

  /** What the text after "](" holds: no close, whitespace before the close, or
      a URL of `len` characters. */
  datatype Judgment = Unclosed | Spaced | Clean(len: nat)

  function Judge(rest: string): (j: Judgment)
    ensures j.Clean? ==> j.len < |rest| && rest[j.len] == ')'
  {
    var close := BalancedClose(rest);
    if close.None? then Unclosed
    else if HasSpace(rest[..close.value]) then Spaced
    else Clean(close.value)
  }

  function LinkAt(t: string, start: nat): (r: Next)
    requires start + 4 <= |t|
    ensures Fits(t, r) && (r.Copy? ==> r.cut == start + 4) && (r.Swap? ==> r.start == start)
  {
    Decide(Judge(t[start..]), start)
  }

  function Decide(j: Judgment, start: nat): Next
  {
    match j
    case Unclosed => Stop
    case Spaced => Copy(start + 4)
    case Clean(len) => Swap(start, len)
  }

  predicate Fits(t: string, next: Next)
  {
    match next
    case Stop => true
    case Copy(cut) => 0 < cut <= |t|
    case Swap(start, len) => start + len < |t| && t[start + len] == ')'
  }

  /** The URLs that get replaced, in order. */
  function Urls(t: string): seq<string>
    decreases |t|, 1
  {
    UrlsAt(t, NextLink(t))
  }

  function UrlsAt(t: string, next: Next): seq<string>
    requires Fits(t, next)
    decreases |t|, 0
  {
    if next.Stop? then []
    else if next.Copy? then Urls(t[next.cut..])
    else [t[next.start..next.start + next.len]] + Urls(t[next.start + next.len + 1..])
  }

  /** `t` with its links' URLs replaced by `labels`. */
  function Rewrite(t: string, labels: seq<string>): string
    requires |labels| == |Urls(t)|
    decreases |t|, 1
  {
    RewriteAt(t, NextLink(t), labels)
  }

  function RewriteAt(t: string, next: Next, labels: seq<string>): string
    requires Fits(t, next) && |labels| == |UrlsAt(t, next)|
    decreases |t|, 0
  {
    if next.Stop? then t
    else if next.Copy? then t[..next.cut] + Rewrite(t[next.cut..], labels)
    else t[..next.start] + labels[0] + ")" + Rewrite(t[next.start + next.len + 1..], labels[1..])
  }

  /** Nothing but the URLs is lost: putting them back gives the text. */
  lemma {:induction false} RewriteRoundTrip(t: string)
    ensures Rewrite(t, Urls(t)) == t
    decreases |t|, 1
  {
    RoundTripAt(t, NextLink(t));
  }

  lemma {:induction false} RoundTripAt(t: string, next: Next)
    requires Fits(t, next)
    ensures RewriteAt(t, next, UrlsAt(t, next)) == t
    decreases |t|, 0
  {
    match next
    case Stop =>
    case Copy(cut) =>
      RewriteRoundTrip(t[cut..]);
      assert t == t[..cut] + t[cut..];
    case Swap(start, len) =>
      RewriteRoundTrip(t[start + len + 1..]);
      LabelsOf(t[start..start + len], Urls(t[start + len + 1..]));
      Reassemble(t, start, len);
  }

  lemma {:induction false} LabelsOf(url: string, rest: seq<string>)
    ensures ([url] + rest)[0] == url && ([url] + rest)[1..] == rest
  {
  }

  lemma {:induction false} SwapLabels(t: string, start: nat, len: nat, name: string, labels: seq<string>, tail: string)
    requires NextLink(t) == Swap(start, len) && start + len < |t| && tail == t[start + len + 1..] && |labels| == |Urls(tail)|
    ensures |[name] + labels| == |Urls(t)|
    ensures Rewrite(t, [name] + labels) == t[..start] + name + ")" + Rewrite(tail, labels)
  {
    RewriteAtSwap(t, start, len, name, labels);
  }

  lemma {:induction false} RewriteAtSwap(t: string, start: nat, len: nat, name: string, labels: seq<string>)
    requires Fits(t, Swap(start, len)) && |labels| == |Urls(t[start + len + 1..])|
    ensures |[name] + labels| == |UrlsAt(t, Swap(start, len))|
    ensures RewriteAt(t, Swap(start, len), [name] + labels) == t[..start] + name + ")" + Rewrite(t[start + len + 1..], labels)
  {
    LabelsOf(name, labels);
    SwapCount(t, start, len);
    SwapUnfolds(t, start, len, [name] + labels);
  }

  lemma {:induction false} SwapCount(t: string, start: nat, len: nat)
    requires Fits(t, Swap(start, len))
    ensures |UrlsAt(t, Swap(start, len))| == 1 + |Urls(t[start + len + 1..])|
  {
  }

  lemma {:induction false} SwapUnfolds(t: string, start: nat, len: nat, labels: seq<string>)
    requires Fits(t, Swap(start, len)) && |labels| == |UrlsAt(t, Swap(start, len))|
    ensures |labels[1..]| == |Urls(t[start + len + 1..])|
    ensures RewriteAt(t, Swap(start, len), labels) == t[..start] + labels[0] + ")" + Rewrite(t[start + len + 1..], labels[1..])
  {
    SwapCount(t, start, len);
  }

  lemma {:induction false} CopyLabels(t: string, labels: seq<string>)
    requires NextLink(t).Copy? && |labels| == |Urls(t)|
    ensures var cut := NextLink(t).cut;
      |Urls(t[cut..])| == |labels| && Rewrite(t, labels) == t[..cut] + Rewrite(t[cut..], labels)
  {
  }

  lemma {:induction false} Reassemble(t: string, start: nat, len: nat)
    requires start + len < |t| && t[start + len] == ')'
    ensures t[..start] + t[start..start + len] + ")" + t[start + len + 1..] == t
  {
  }

  // ---- Scanning as a state machine ----

  /** Scanning a URL: still open at some depth, or shut; `space` says whether
      whitespace was met before. */
  datatype Scan = Open(depth: nat, space: bool) | Shut(space: bool)

  function Feed(st: Scan, c: char): Scan
  {
    if st.Shut? then st
    else if c == '(' then Open(st.depth + 1, st.space)
    else if c == ')' then if st.depth == 0 then Shut(st.space) else Open(st.depth - 1, st.space)
    else Open(st.depth, st.space || IsWhitespace(c))
  }

  function Run(st: Scan, s: string): Scan
    decreases |s|
  {
    if s == "" then st else Run(Feed(st, s[0]), s[1..])
  }

  lemma {:induction false} RunConcat(st: Scan, a: string, b: string)
    ensures Run(st, a + b) == Run(Run(st, a), b)
    decreases |a|
  {
    if a == "" {
      assert a + b == b;
    } else {
      assert (a + b)[1..] == a[1..] + b;
      RunConcat(Feed(st, a[0]), a[1..], b);
    }
  }

  lemma {:induction false} RunShut(st: Scan, s: string)
    requires st.Shut?
    ensures Run(st, s) == st
    decreases |s|
  {
    if s != "" {
      RunShut(st, s[1..]);
    }
  }

  /** While a scan stays open, starting deeper or with whitespace already met
      only carries through. */
  lemma {:induction false} RunRaised(st: Scan, s: string, more: nat, space: bool)
    requires st.Open? && Run(st, s).Open?
    ensures var end := Run(st, s);
      Run(Open(st.depth + more, st.space || space), s) == Open(end.depth + more, end.space || space)
    decreases |s|
  {
    if s != "" {
      var next := Feed(st, s[0]);
      if next.Shut? {
        RunShut(next, s[1..]);
      } else {
        RunRaised(next, s[1..], more, space);
      }
    }
  }

  lemma {:induction false} CloseAtStep(s: string, st: Scan)
    requires s != "" && st.Open? && Feed(st, s[0]).Open?
    ensures var c := CloseAt(s[1..], Feed(st, s[0]).depth);
      CloseAt(s, st.depth) == if c.None? then None else Some(c.value + 1)
  {
  }

  lemma {:induction false} RunCons(st: Scan, s: string, n: nat)
    requires n < |s|
    ensures Run(st, s[..n + 1]) == Run(Feed(st, s[0]), s[1..][..n])
    ensures HasSpace(s[..n + 1]) <==> IsWhitespace(s[0]) || HasSpace(s[1..][..n])
  {
    assert s[..n + 1][1..] == s[1..][..n];
  }

  lemma {:induction false} CloseAtRun(s: string, st: Scan)
    requires st.Open?
    ensures var c := CloseAt(s, st.depth);
      if c.None? then Run(st, s).Open?
      else Run(st, s[..c.value]) == Open(0, st.space || HasSpace(s[..c.value]))
    decreases |s|
  {
    if s != "" && Feed(st, s[0]).Open? {
      var next := Feed(st, s[0]);
      CloseAtRun(s[1..], next);
      CloseAtStep(s, st);
      var c := CloseAt(s[1..], next.depth);
      if c.Some? {
        RunCons(st, s, c.value);
      }
    }
  }

  /** Whitespace comes before any ')'. */
  predicate SpaceFirst(s: string) { s != "" && s[0] != ')' && (IsWhitespace(s[0]) || SpaceFirst(s[1..])) }

  lemma {:induction false} SpaceFirstConcat(a: string, b: string)
    ensures SpaceFirst(a + b) <==> SpaceFirst(a) || (')' !in a && SpaceFirst(b))
  {
    if a == "" {
      assert a + b == b;
    } else {
      assert (a + b)[1..] == a[1..] + b;
      SpaceFirstConcat(a[1..], b);
    }
  }

  lemma {:induction false} NoSpaceFirst(a: string, b: string)
    requires !HasSpace(a) && b != "" && b[0] == ')'
    ensures !SpaceFirst(a + b)
  {
    if a == "" {
      assert a + b == b;
    } else {
      assert (a + b)[1..] == a[1..] + b;
      NoSpaceFirst(a[1..], b);
    }
  }

  // ---- Which links are left alone ----

  /** The text after "](" is not a URL to replace. */
  predicate Rejects(rest: string) { !Judge(rest).Clean? }

  /** Whitespace before the balanced ')', or else before any ')'. */
  predicate SpaceBeforeClose(rest: string)
  {
    Run(Open(0, false), rest) == Shut(true) || SpaceFirst(rest)
  }

  lemma {:induction false} CloseAtShut(s: string, st: Scan)
    requires st.Open? && CloseAt(s, st.depth).Some?
    ensures Run(st, s) == Shut(st.space || HasSpace(s[..CloseAt(s, st.depth).value]))
  {
    var c := CloseAt(s, st.depth).value;
    CloseAtRun(s, st);
    RunConcat(st, s[..c], s[c..]);
    assert s == s[..c] + s[c..];
    RunShut(Shut(st.space || HasSpace(s[..c])), s[c..][1..]);
  }

  lemma {:induction false} SpaceFirstBefore(s: string, c: nat)
    requires c < |s| && s[c] == ')' && SpaceFirst(s)
    ensures HasSpace(s[..c])
  {
    assert s == s[..c] + s[c..];
    if !HasSpace(s[..c]) {
      NoSpaceFirst(s[..c], s[c..]);
    }
  }

  lemma {:induction false} SpaceBeforeFirst(s: string)
    requires FirstClose(s).Some? && HasSpace(s[..FirstClose(s).value])
    ensures SpaceFirst(s)
  {
    if !IsWhitespace(s[0]) {
      assert s[..FirstClose(s).value][1..] == s[1..][..FirstClose(s[1..]).value];
      SpaceBeforeFirst(s[1..]);
    }
  }

  lemma {:induction false} RejectsSpace(rest: string)
    requires SpaceBeforeClose(rest)
    ensures Rejects(rest)
  {
    var c := BalancedClose(rest);
    if SpaceFirst(rest) {
      if c.Some? { SpaceFirstBefore(rest, c.value); }
    } else if CloseAt(rest, 0).Some? {
      CloseAtShut(rest, Open(0, false));
    } else {
      CloseAtRun(rest, Open(0, false));
    }
  }

  lemma {:induction false} SpaceRejects(rest: string)
    requires Rejects(rest) && BalancedClose(rest).Some?
    ensures SpaceBeforeClose(rest)
  {
    if CloseAt(rest, 0).Some? {
      CloseAtShut(rest, Open(0, false));
    } else {
      SpaceBeforeFirst(rest);
    }
  }

  // ---- What rewriting does to a scan ----

  /** What a replacement must look like for a second pass to skip it. */
  predicate Label(name: string)
  {
    name != "" && name[0] != 'h' && Inert(name)
  }

  predicate Plain(c: char) { c != '(' && c != ')' && c != ']' && !IsWhitespace(c) }

  predicate Inert(name: string)
  {
    forall i :: 0 <= i < |name| ==> Plain(name[i])
  }

  predicate AllLabels(names: seq<string>) { forall i :: 0 <= i < |names| ==> Label(names[i]) }

  lemma {:induction false} RunInert(st: Scan, name: string)
    requires Inert(name)
    ensures Run(st, name) == st
    decreases |name|
  {
    if name != "" {
      assert Plain(name[0]);
      assert Inert(name[1..]);
      RunInert(Feed(st, name[0]), name[1..]);
    }
  }

  lemma {:induction false} RunOne(st: Scan, s: string, c: char)
    ensures Run(st, s + [c]) == Feed(Run(st, s), c)
  {
    RunConcat(st, s, [c]);
    assert [c][1..] == "";
    assert Run(Run(st, s), [c]) == Run(Feed(Run(st, s), c), [c][1..]);
  }

  /** Inside an open scan of depth at least one, a URL that never closes keeps
      the scan from shutting. */
  lemma {:induction false} UnclosedStaysOpen(st: Scan, s: string)
    requires st.Open? && CloseAt(s, 0).None?
    ensures Run(st, s).Open?
  {
    CloseAtRun(s, Open(0, false));
    RunRaised(Open(0, false), s, st.depth, st.space);
  }

  /** A balanced URL and its label leave the scan in the same state. */
  lemma {:induction false} UrlIsInert(st: Scan, url: string)
    requires st.Open? && Run(Open(0, false), url) == Open(0, false)
    ensures Run(st, url) == st
  {
    RunRaised(Open(0, false), url, st.depth, st.space);
  }

  // ---- Where the next link is ----

  lemma {:induction false} CopyFacts(t: string)
    requires NextLink(t).Copy?
    ensures var cut := NextLink(t).cut;
      && 6 <= cut <= |t| && t[cut - 6..cut] == OPENING && NoneBefore(t, OPENING, cut - 6)
      && SpaceBeforeClose(t[cut - 4..])
  {
    var start := NextLink(t).cut - 4;
    FindMeaning(t, OPENING);
    SpaceRejects(t[start..]);
  }

  lemma {:induction false} SwapFacts(t: string)
    requires NextLink(t).Swap?
    ensures var start, len := NextLink(t).start, NextLink(t).len;
      && start + len < |t| && start + 4 <= |t|
      && t[start - 2..start] == "](" && t[start..start + 4] == "http" && NoneBefore(t, OPENING, start - 2)
      && BalancedClose(t[start..]) == Some(len) && !HasSpace(t[start..start + len])
  {
    var start, len := NextLink(t).start, NextLink(t).len;
    FoundLink(t);
    OpeningAt(t, start - 2);
    JudgedClean(t[start..], len);
    assert t[start..][..len] == t[start..start + len];
  }

  lemma {:induction false} FoundLink(t: string)
    requires NextLink(t).Swap?
    ensures var start, len := NextLink(t).start, NextLink(t).len;
      && 2 <= start && start + 4 <= |t| && t[start - 2..start + 4] == OPENING && NoneBefore(t, OPENING, start - 2)
      && Judge(t[start..]) == Clean(len)
  {
    FindMeaning(t, OPENING);
  }

  lemma {:induction false} JudgedClean(rest: string, len: nat)
    requires Judge(rest) == Clean(len)
    ensures len < |rest| && BalancedClose(rest) == Some(len) && !HasSpace(rest[..len])
  {
  }

  lemma {:induction false} OpeningAt(t: string, at: nat)
    requires at + 6 <= |t| && t[at..at + 6] == OPENING
    ensures t[at..at + 2] == "](" && t[at + 2..at + 6] == "http"
  {
    assert t[at..at + 2] == OPENING[..2] && t[at + 2..at + 6] == OPENING[2..];
  }

  /** An accepted URL, met inside an open scan, is skipped over. */
  lemma {:induction false} UrlSkipped(st: Scan, t: string)
    requires NextLink(t).Swap? && st.Open? && Run(st, t[NextLink(t).start..]).Shut?
    ensures var start, len := NextLink(t).start, NextLink(t).len;
      Run(st, t[start..start + len]) == st || CloseAt(t[start..], 0).None?
  {
    SwapFacts(t);
    var start, len := NextLink(t).start, NextLink(t).len;
    assert t[start..][..len] == t[start..start + len];
    UrlIn(st, t[start..], len);
  }

  lemma {:induction false} UrlIn(st: Scan, rest: string, len: nat)
    requires st.Open? && Run(st, rest).Shut? && len < |rest| && BalancedClose(rest) == Some(len) && !HasSpace(rest[..len])
    ensures Run(st, rest[..len]) == st || CloseAt(rest, 0).None?
  {
    if CloseAt(rest, 0).Some? {
      CloseAtRun(rest, Open(0, false));
      UrlIsInert(st, rest[..len]);
    }
  }

  /** An open scan reaches an accepted URL one parenthesis deep. */
  lemma {:induction false} DeepAtUrl(st: Scan, t: string)
    requires NextLink(t).Swap? && Run(st, t[..NextLink(t).start]).Open?
    ensures Run(st, t[..NextLink(t).start]).depth > 0
  {
    SwapFacts(t);
    var start := NextLink(t).start;
    assert t[start - 2..start][1] == '(';
    assert t[..start] == t[..start - 1] + ['('];
    RunOne(st, t[..start - 1], '(');
  }

  lemma {:induction false} SpliceRuns(st: Scan, pre: string, url: string, name: string)
    requires Run(Run(st, pre), url) == Run(st, pre) && Inert(name)
    ensures Run(st, pre + name + ")") == Run(st, pre + url + ")")
  {
    RunConcat(st, pre, url);
    RunConcat(st, pre, name);
    RunOne(st, pre + url, ')');
    RunOne(st, pre + name, ')');
    RunInert(Run(st, pre), name);
  }

  lemma {:induction false} MidRuns(st: Scan, t: string)
    requires NextLink(t).Swap? && Run(st, t).Shut?
    ensures var start, len := NextLink(t).start, NextLink(t).len;
      Run(Run(st, t[..start]), t[start..start + len]) == Run(st, t[..start])
  {
    var start := NextLink(t).start;
    var mid := Run(st, t[..start]);
    assert t == t[..start] + t[start..];
    RunConcat(st, t[..start], t[start..]);
    if mid.Shut? {
      RunShut(mid, t[start..start + NextLink(t).len]);
    } else {
      DeepAtUrl(st, t);
      UrlReached(mid, t);
      UrlSkipped(mid, t);
    }
  }

  /** Replacing the first link leaves the scan as it was, as long as the scan of
      the original shuts. */
  lemma {:induction false} SwapRuns(st: Scan, t: string, name: string)
    requires NextLink(t).Swap? && Inert(name) && Run(st, t).Shut?
    ensures var start, len := NextLink(t).start, NextLink(t).len;
      Run(st, t[..start] + name + ")") == Run(st, t[..start + len + 1])
  {
    var start, len := NextLink(t).start, NextLink(t).len;
    MidRuns(st, t);
    SpliceRuns(st, t[..start], t[start..start + len], name);
    ThroughClose(t, start, len);
  }

  lemma {:induction false} ThroughClose(t: string, start: nat, len: nat)
    requires start + len < |t| && t[start + len] == ')'
    ensures t[..start + len + 1] == t[..start] + t[start..start + len] + ")"
  {
  }

  /** A scan that is at least one deep and shuts later has the URL balanced. */
  lemma {:induction false} UrlReached(mid: Scan, t: string)
    requires NextLink(t).Swap? && mid.Open? && mid.depth > 0 && Run(mid, t[NextLink(t).start..]).Shut?
    ensures CloseAt(t[NextLink(t).start..], 0).Some?
  {
    if CloseAt(t[NextLink(t).start..], 0).None? {
      UnclosedStaysOpen(mid, t[NextLink(t).start..]);
    }
  }

  lemma {:induction false} RunSplit(st: Scan, t: string, n: nat)
    requires n <= |t|
    ensures Run(st, t) == Run(Run(st, t[..n]), t[n..])
  {
    assert t == t[..n] + t[n..];
    RunConcat(st, t[..n], t[n..]);
  }

  lemma {:induction false} RewriteShuts(t: string, names: seq<string>, st: Scan)
    requires |names| == |Urls(t)| && AllLabels(names) && Run(st, t).Shut?
    ensures Run(st, Rewrite(t, names)) == Run(st, t)
    decreases |t|
  {
    var next := NextLink(t);
    if next.Copy? {
      RunSplit(st, t, next.cut);
      RewriteShuts(t[next.cut..], names, Run(st, t[..next.cut]));
      RunConcat(st, t[..next.cut], Rewrite(t[next.cut..], names));
    } else if next.Swap? {
      RewriteShutsSwap(t, names, st);
    }
  }

  lemma {:induction false} RewriteShutsSwap(t: string, names: seq<string>, st: Scan)
    requires |names| == |Urls(t)| && AllLabels(names) && Run(st, t).Shut? && NextLink(t).Swap?
    ensures Run(st, Rewrite(t, names)) == Run(st, t)
    decreases |t|, 0
  {
    var start, n := NextLink(t).start, NextLink(t).start + NextLink(t).len + 1;
    RunSplit(st, t, n);
    SwapRuns(st, t, names[0]);
    RewriteShuts(t[n..], names[1..], Run(st, t[..n]));
    RunConcat(st, t[..start] + names[0] + ")", Rewrite(t[n..], names[1..]));
  }

  lemma {:induction false} SpaceFirstGrows(a: string, b: string)
    requires SpaceFirst(a)
    ensures SpaceFirst(a + b)
  {
    SpaceFirstConcat(a, b);
  }

  lemma {:induction false} NotInUrl(t: string)
    requires NextLink(t).Swap? && SpaceFirst(t)
    ensures SpaceFirst(t[..NextLink(t).start])
  {
    SwapFacts(t);
    var start, len := NextLink(t).start, NextLink(t).len;
    assert t == t[..start] + t[start..];
    SpaceFirstConcat(t[..start], t[start..]);
    assert t[start..] == t[start..start + len] + t[start + len..];
    NoSpaceFirst(t[start..start + len], t[start + len..]);
  }

  lemma {:induction false} RewriteSpaceFirst(t: string, names: seq<string>)
    requires |names| == |Urls(t)| && SpaceFirst(t)
    ensures SpaceFirst(Rewrite(t, names))
    decreases |t|
  {
    var next := NextLink(t);
    if next.Copy? {
      var cut := next.cut;
      assert t == t[..cut] + t[cut..];
      SpaceFirstConcat(t[..cut], t[cut..]);
      if !SpaceFirst(t[..cut]) { RewriteSpaceFirst(t[cut..], names); }
      SpaceFirstConcat(t[..cut], Rewrite(t[cut..], names));
    } else if next.Swap? {
      NotInUrl(t);
      SpaceFirstGrows(t[..next.start], names[0]);
      SpaceFirstGrows(t[..next.start] + names[0], ")");
      SpaceFirstGrows(t[..next.start] + names[0] + ")", Rewrite(t[next.start + next.len + 1..], names[1..]));
    }
  }

  // ---- A second pass ----

  function Shifted(next: Next, gap: nat): Next
  {
    match next
    case Stop => Stop
    case Copy(cut) => Copy(gap + cut)
    case Swap(start, len) => Swap(gap + start, len)
  }

  /** Text in front that starts no link of its own only shifts what follows. */
  lemma {:induction false} NextFrom(s: string, n: nat)
    requires n <= |s| && NoneBefore(s, OPENING, n)
    ensures NextLink(s) == Shifted(NextLink(s[n..]), n)
  {
    FindFrom(s, OPENING, n);
    var at := Find(s[n..], OPENING);
    if at.Some? {
      var rest := s[n..][at.value + 2..];
      NextAt(s, n + at.value, rest) by {
        SuffixOf(s, n, at.value + 2);
      }
      NextAt(s[n..], at.value, rest);
      DecideShifted(Judge(rest), at.value + 2, n);
    }
  }

  lemma {:induction false} DecideShifted(v: Judgment, at: nat, n: nat)
    ensures Decide(v, n + at) == Shifted(Decide(v, at), n)
  {
  }

  lemma {:induction false} NextAt(t: string, at: nat, rest: string)
    requires Find(t, OPENING) == Some(at) && at + 6 <= |t| && rest == t[at + 2..]
    ensures NextLink(t) == Decide(Judge(rest), at + 2)
  {
  }

  lemma {:induction false} UrlsFrom(s: string, n: nat)
    requires n <= |s| && NoneBefore(s, OPENING, n)
    ensures Urls(s) == Urls(s[n..])
  {
    NextFrom(s, n);
    UrlsShifted(s, s[n..], n);
  }

  lemma {:induction false} UrlsShifted(s: string, o: string, n: nat)
    requires n <= |s| && o == s[n..] && NextLink(s) == Shifted(NextLink(o), n)
    ensures Urls(s) == Urls(o)
  {
    UrlsAtShifted(s, o, n, NextLink(o));
  }

  lemma {:induction false} UrlsAtShifted(s: string, o: string, n: nat, next: Next)
    requires n <= |s| && o == s[n..] && Fits(o, next)
    ensures Fits(s, Shifted(next, n)) && UrlsAt(s, Shifted(next, n)) == UrlsAt(o, next)
  {
    match next
    case Stop =>
    case Copy(cut) =>
      SuffixOf(s, n, cut);
    case Swap(start, len) =>
      SliceOf(s, n, start, len);
      SuffixOf(s, n, start + len + 1);
      assert n + start + len + 1 == n + (start + len + 1);
  }

  lemma {:induction false} UrlsPast(s: string, cut: nat)
    requires NextLink(s) == Copy(cut)
    ensures cut <= |s| && Urls(s) == Urls(s[cut..])
  {
    UrlsAtCopy(s, cut);
  }

  lemma {:induction false} UrlsAtCopy(s: string, cut: nat)
    requires Fits(s, Copy(cut))
    ensures UrlsAt(s, Copy(cut)) == Urls(s[cut..])
  {
  }

  lemma {:induction false} UrlsSwapped(s: string, start: nat, len: nat)
    requires NextLink(s) == Swap(start, len)
    ensures start + len < |s| && Urls(s) == [s[start..start + len]] + Urls(s[start + len + 1..])
  {
    UrlsAtSwap(s, start, len);
  }

  lemma {:induction false} UrlsAtSwap(s: string, start: nat, len: nat)
    requires Fits(s, Swap(start, len))
    ensures UrlsAt(s, Swap(start, len)) == [s[start..start + len]] + Urls(s[start + len + 1..])
  {
  }

  lemma {:induction false} SuffixOf(s: string, n: nat, start: nat)
    requires n + start <= |s|
    ensures s[n..][start..] == s[n + start..]
  {
  }

  lemma {:induction false} SliceOf(s: string, n: nat, start: nat, len: nat)
    requires n + start + len <= |s|
    ensures s[n..][start..start + len] == s[n + start..n + start + len]
  {
  }

  // ---- A second pass finds nothing ----

  lemma {:induction false} Mismatch(s: string, i: nat, pat: string, k: nat)
    requires i + k < |s| && k < |pat| && s[i + k] != pat[k]
    ensures !StartsWith(s[i..], pat)
  {
  }

  lemma {:induction false} SamePrefix(t: string, s: string, n: nat, m: nat)
    requires n <= m && n + |OPENING| <= m <= |t| && m <= |s| && s[..m] == t[..m] && NoneBefore(t, OPENING, n)
    ensures NoneBefore(s, OPENING, n)
  {
    forall i | 0 <= i < n
      ensures !StartsWith(s[i..], OPENING)
    {
      assert s[i..][..|OPENING|] == s[..m][i..i + |OPENING|];
      assert t[i..][..|OPENING|] == t[..m][i..i + |OPENING|];
      assert !StartsWith(t[i..], OPENING);
    }
  }

  /** No link starts before or inside a label put in place of a URL. */
  lemma {:induction false} LabelHidesLink(t: string, s: string, start: nat, name: string, i: nat)
    requires 2 <= start && start + 4 <= |t| && t[start - 2..start] == "](" && NoneBefore(t, OPENING, start - 2)
    requires Label(name) && start + |name| < |s| && i <= start + |name|
    requires s[..start] == t[..start] && s[start..start + |name| + 1] == name + ")"
    ensures !StartsWith(s[i..], OPENING)
  {
    assert s[start - 1] == s[..start][start - 1] == t[start - 2..start][1] == '(';
    assert forall j :: start <= j <= start + |name| ==> s[j] == (name + ")")[j - start];
    if i >= start - 1 {
      Mismatch(s, i, OPENING, 0);
    } else if i == start - 2 {
      Mismatch(s, i, OPENING, 2);
    } else if i > start - 6 {
      Mismatch(s, i, OPENING, start - 1 - i);
    } else {
      SliceOfPrefix(s, start, i);
      SliceOfPrefix(t, start, i);
      assert !StartsWith(t[i..], OPENING);
    }
  }

  lemma {:induction false} SliceOfPrefix(s: string, n: nat, i: nat)
    requires i + 6 <= n <= |s|
    ensures s[i..][..6] == s[..n][i..i + 6]
  {
  }

  lemma {:induction false} SwapClears(t: string, name: string, rest: string)
    requires NextLink(t).Swap? && Label(name)
    ensures var p := t[..NextLink(t).start] + name + ")";
      NoneBefore(p + rest, OPENING, |p|)
  {
    var start := NextLink(t).start;
    var p := t[..start] + name + ")";
    var s := p + rest;
    SwapFacts(t);
    assert s[start..start + |name| + 1] == name + ")";
    forall i | 0 <= i < |p|
      ensures !StartsWith(s[i..], OPENING)
    {
      LabelHidesLink(t, s, start, name, i);
    }
  }

  /** The text after a link left alone still keeps it alone once rewritten. */
  lemma {:induction false} StillRejected(front: string, tail: string, names: seq<string>)
    requires |names| == |Urls(tail)| && AllLabels(names)
    requires SpaceBeforeClose(front + tail) && ')' !in front && !SpaceFirst(front)
    ensures SpaceBeforeClose(front + Rewrite(tail, names))
  {
    if SpaceFirst(front + tail) {
      SpaceFirstConcat(front, tail);
      RewriteSpaceFirst(tail, names);
      SpaceFirstConcat(front, Rewrite(tail, names));
    } else {
      var st := Run(Open(0, false), front);
      RunConcat(Open(0, false), front, tail);
      RewriteShuts(tail, names, st);
      RunConcat(Open(0, false), front, Rewrite(tail, names));
    }
  }

  lemma {:induction false} HttpIsPlain()
    ensures ')' !in "http" && !SpaceFirst("http")
  {
  }

  /** A link left alone is met again, and left alone again. */
  lemma {:induction false} CopyAgain(t: string, names: seq<string>)
    requires NextLink(t).Copy? && |names| == |Urls(t)| && AllLabels(names)
    ensures NextLink(Rewrite(t, names)) in {Stop, NextLink(t)}
  {
    var cut := NextLink(t).cut;
    CopyFacts(t);
    var tail, s := t[cut..], Rewrite(t, names);
    CopyLabels(t, names);
    HttpBehind(t, cut, tail);
    HttpBehind(s, cut, Rewrite(tail, names));
    HttpIsPlain();
    StillRejected("http", tail, names);
    FoundAgain(t, s, cut);
  }

  lemma {:induction false} HttpBehind(t: string, cut: nat, tail: string)
    requires 6 <= cut <= |t| && t[..cut][cut - 6..] == OPENING && t[cut..] == tail
    ensures t[cut - 4..] == "http" + tail
  {
    assert t[..cut][cut - 6..][2..] == t[cut - 4..cut];
  }

  lemma {:induction false} FoundAgain(t: string, s: string, cut: nat)
    requires 6 <= cut <= |t| && cut <= |s| && t[cut - 6..cut] == OPENING && NoneBefore(t, OPENING, cut - 6)
    requires s[..cut] == t[..cut] && SpaceBeforeClose(s[cut - 4..])
    ensures NextLink(s) in {Stop, Copy(cut)}
  {
    var n := cut - 6;
    SamePrefix(t, s, n, cut);
    FindFrom(s, OPENING, n);
    assert s[n..][..6] == s[..cut][n..] == t[..cut][n..] == t[n..cut];
    assert Find(s, OPENING) == Some(n);
    RejectsSpace(s[n + 2..]);
    LinkRejected(s, n + 2);
  }

  lemma {:induction false} LinkRejected(s: string, start: nat)
    requires start + 4 <= |s| && Rejects(s[start..])
    ensures LinkAt(s, start) in {Stop, Copy(start + 4)}
  {
  }

  /** Rewritten text holds no link that a second pass would replace. */
  lemma {:induction false} NoSecondPass(t: string, names: seq<string>)
    requires |names| == |Urls(t)| && AllLabels(names)
    ensures Urls(Rewrite(t, names)) == []
    decreases |t|
  {
    var next := NextLink(t);
    if next.Copy? {
      var o := Rewrite(t[next.cut..], names);
      NoSecondPass(t[next.cut..], names);
      CopyAgain(t, names);
      assert (t[..next.cut] + o)[next.cut..] == o;
    } else if next.Swap? {
      var tail := t[next.start + next.len + 1..];
      NoSecondPass(tail, names[1..]);
      var p, o := t[..next.start] + names[0] + ")", Rewrite(tail, names[1..]);
      SwapClears(t, names[0], o);
      UrlsFrom(p + o, |p|);
      assert (p + o)[|p|..] == o;
    }
  }
}
