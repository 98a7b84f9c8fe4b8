/** The DONSETCH_<SECTION>__<KEY> layer of src/config.rs: from a snapshot of
    the environment to a table of values, warnings and errors. */
module EnvLayer {
  import opened Options
  import opened Text
  import Sorting
  import opened Flats

  datatype FieldKind = Str | Bool | Int | List

  datatype Scalar = Chars(text: string) | Flag(on: bool) | Number(n: int) | Items(items: seq<string>)

  datatype Node = Leaf(value: Scalar, origin: string) | Table(entries: map<string, Node>)

  /** A variable; none stands for text that is not Unicode. */
  datatype Var = Var(name: Option<string>, value: Option<string>)

  datatype Entry = Entry(name: string, value: Option<string>, kind: FieldKind)

  /** The field table, the names that are no knobs, and the parsers that are
      not modelled. */
  datatype Book = Book(
    kinds: map<(string, string), FieldKind>,
    skipped: set<string>,
    tokenFault: string -> Option<string>,
    tokenRule: string,
    parseInt: string -> Option<int>)

  datatype Class = Skip | Fault(text: string) | Warning(text: string) | Known(path: string, entry: Entry)

  datatype Outcome = Good(value: Scalar, origin: string) | Bad(text: string)

  const PREFIX := "DONSETCH_"

  // ---- One variable ----

  function SplitAll(s: string): (r: seq<string>)
    ensures |r| >= 1
    decreases |s|
  {
    var at := Find(s, "__");
    if at.None? then [s] else [s[..at.value]] + SplitAll(s[at.value + 2..])
  }

  function PathOf(section: string, key: string): string { section + "." + key }

  function Classify(v: Var, book: Book): Class
  {
    if v.name.None? || !StartsWith(v.name.value, PREFIX) || v.name.value == PREFIX || v.name.value in book.skipped then Skip
    else
      var name := v.name.value;
      var parts := SplitAll(AsciiLower(name[|PREFIX|..]));
      var known := |parts| == 2 && (parts[0], parts[1]) in book.kinds;
      if parts[0] == "rules" && !known then Fault(name + ": rules cannot be set through the environment.\n\nPut them in donsetch.toml as [rules.url.\"<pattern>\"].")
      else if |parts| != 2 then Warning("ignoring " + name + ": expected DONSETCH_<SECTION>__<KEY>")
      else if !known then Warning("ignoring " + name + ": unknown knob (see `donsetch config show`)")
      else Known(PathOf(parts[0], parts[1]), Entry(name, v.value, book.kinds[(parts[0], parts[1])]))
  }

  predicate SameWord(v: string, word: string) { AsciiLower(v) == word }

  function Boolish(text: string): Option<bool>
  {
    var v := Trim(text, IsWhitespace);
    if SameWord(v, "1") || SameWord(v, "true") || SameWord(v, "on") || SameWord(v, "yes") || SameWord(v, "y") then Some(true)
    else if SameWord(v, "0") || SameWord(v, "false") || SameWord(v, "off") || SameWord(v, "no") || SameWord(v, "n") then Some(false)
    else None
  }

  function TrimmedItems(parts: seq<string>): seq<string>
  {
    if parts == [] then []
    else
      var item := Trim(parts[0], IsWhitespace);
      (if item == "" then [] else [item]) + TrimmedItems(parts[1..])
  }

  function Evaluate(path: string, entry: Entry, book: Book): Outcome
  {
    if entry.value.None? then
      Bad(if path == "transport.token" then entry.name + ": " + book.tokenRule else entry.name + " contains a non-UTF-8 value")
    else
      var value := entry.value.value;
      if path == "transport.token" && book.tokenFault(value).Some? then Bad(entry.name + ": " + book.tokenFault(value).value)
      else match entry.kind
        case Str => Good(Chars(value), entry.name)
        case Bool =>
          var b := Boolish(value);
          if b.Some? then Good(Flag(b.value), entry.name) else Bad(entry.name + " is not a boolean (1/true/on/yes/0/false/off/no)")
        case Int =>
          var n := book.parseInt(Trim(value, IsWhitespace));
          if n.Some? then Good(Number(n.value), entry.name) else Bad(entry.name + " is not an integer")
        case List => Good(Items(TrimmedItems(SplitOn(value, ','))), entry.name)
  }

  // ---- The whole snapshot ----

  function FaultsOf(book: Book): Var -> seq<string> { v => var c := Classify(v, book); if c.Fault? then [c.text] else [] }

  function WarningsOf(book: Book): Var -> seq<string> { v => var c := Classify(v, book); if c.Warning? then [c.text] else [] }

  function PathsOf(book: Book): Var -> seq<string> { v => var c := Classify(v, book); if c.Known? then [c.path] else [] }

  function EntriesOf(book: Book, path: string): Var -> seq<Entry>
  {
    v => var c := Classify(v, book); if c.Known? && c.path == path then [c.entry] else []
  }

  function NamesIn(entries: seq<Entry>): seq<string>
  {
    if entries == [] then [] else [entries[0].name] + NamesIn(entries[1..])
  }

  /** `xs` without immediate repeats. */
  function Dedup(xs: seq<string>): seq<string>
  {
    if |xs| <= 1 then xs
    else if xs[0] == xs[1] then Dedup(xs[1..])
    else [xs[0]] + Dedup(xs[1..])
  }

  function Collision(entries: seq<Entry>, path: string): string
  {
    JoinWith(Dedup(Sorting.Sort(NamesIn(entries), StringLe)), ", ") + " map to the same key " + path + "; set only one"
  }

  /** What one key comes to: its value, or one error. */
  function Settle(path: string, entries: seq<Entry>, book: Book): Outcome
    requires entries != []
  {
    if |entries| > 1 then Bad(Collision(entries, path)) else Evaluate(path, entries[0], book)
  }

  function Put(table: map<string, Node>, path: string, value: Scalar, origin: string): map<string, Node>
  {
    var parts := SplitOn(path, '.');
    if |parts| == 1 then table[parts[0] := Leaf(value, origin)]
    else
      var section := if parts[0] in table then table[parts[0]] else Table(map[]);
      if section.Leaf? then table
      else table[parts[0] := Table(section.entries[parts[1] := Leaf(value, origin)])]
  }

  function Get(table: map<string, Node>, section: string, key: string): Option<Node>
  {
    if section in table && table[section].Table? && key in table[section].entries then Some(table[section].entries[key])
    else None
  }

  datatype Layer = Layer(table: map<string, Node>, warnings: seq<string>, errors: seq<string>)

  function Entries(vars: seq<Var>, book: Book, path: string): seq<Entry> { Flat(vars, EntriesOf(book, path)) }

  /** The recognized keys, in order, each once. */
  function Groups(vars: seq<Var>, book: Book): seq<string>
  {
    Dedup(Sorting.Sort(Flat(vars, PathsOf(book)), StringLe))
  }

  function OutcomeOf(vars: seq<Var>, book: Book, path: string): Option<Outcome>
  {
    var entries := Entries(vars, book, path);
    if entries == [] then None else Some(Settle(path, entries, book))
  }

  function TableOf(vars: seq<Var>, book: Book, groups: seq<string>): map<string, Node>
  {
    if groups == [] then map[]
    else
      var n := |groups| - 1;
      var rest := TableOf(vars, book, groups[..n]);
      match OutcomeOf(vars, book, groups[n])
      case Some(Good(value, origin)) => Put(rest, groups[n], value, origin)
      case _ => rest
  }

  function GroupErrors(vars: seq<Var>, book: Book, groups: seq<string>): seq<string>
  {
    if groups == [] then []
    else
      var n := |groups| - 1;
      GroupErrors(vars, book, groups[..n]) +
      match OutcomeOf(vars, book, groups[n])
      case Some(Bad(text)) => [text]
      case _ => []
  }

  function LayerOf(vars: seq<Var>, book: Book): Layer
  {
    var groups := Groups(vars, book);
    Layer(
      TableOf(vars, book, groups),
      Sorting.Sort(Flat(vars, WarningsOf(book)), StringLe),
      Sorting.Sort(Flat(vars, FaultsOf(book)) + GroupErrors(vars, book, groups), StringLe))
  }

  // ---- Order does not matter ----

  lemma {:induction false} NamesConcat(a: seq<Entry>, b: seq<Entry>)
    ensures NamesIn(a + b) == NamesIn(a) + NamesIn(b)
    decreases |a|
  {
    if a == [] {
      assert a + b == b;
    } else {
      assert (a + b)[1..] == a[1..] + b;
      NamesConcat(a[1..], b);
    }
  }

  lemma {:induction false} StringOrder()
    ensures Sorting.TotalPreorder(StringLe) && Sorting.Antisymmetric(StringLe)
  {
    forall a: string, b: string ensures StringLe(a, b) || StringLe(b, a) {
      StringLeTotal(a, b);
    }
    forall a, b, c | StringLe(a, b) && StringLe(b, c) ensures StringLe(a, c) {
      StringLeTrans(a, b, c);
    }
    forall a, b | StringLe(a, b) && StringLe(b, a) ensures a == b {
      StringLeAntisym(a, b);
    }
  }

  function NamesOf(book: Book, path: string): Var -> seq<string>
  {
    v => var c := Classify(v, book); if c.Known? && c.path == path then [c.entry.name] else []
  }

  lemma {:induction false} NamesFlat(vars: seq<Var>, book: Book, path: string)
    ensures NamesIn(Entries(vars, book, path)) == Flat(vars, NamesOf(book, path))
    decreases |vars|
  {
    if vars != [] {
      var n := |vars| - 1;
      NamesFlat(vars[..n], book, path);
      NamesConcat(Entries(vars[..n], book, path), EntriesOf(book, path)(vars[n]));
      NameOf(vars[n], book, path);
    }
  }

  lemma {:induction false} NameOf(v: Var, book: Book, path: string)
    ensures NamesIn(EntriesOf(book, path)(v)) == NamesOf(book, path)(v)
  {
  }

  lemma {:induction false} SettlePermutes(path: string, a: seq<Entry>, b: seq<Entry>, book: Book)
    requires multiset(a) == multiset(b) && a != [] && multiset(NamesIn(a)) == multiset(NamesIn(b))
    ensures b != [] && Settle(path, a, book) == Settle(path, b, book)
  {
    Sorting.SameSize(a, b);
    if |a| > 1 {
      StringOrder();
      Sorting.SortForgetsOrder(NamesIn(a), NamesIn(b), StringLe);
    } else {
      assert a[0] in multiset(b);
      assert a == b;
    }
  }

  lemma {:induction false} OutcomePermutes(a: seq<Var>, b: seq<Var>, book: Book, path: string)
    requires multiset(a) == multiset(b)
    ensures OutcomeOf(a, book, path) == OutcomeOf(b, book, path)
  {
    var x, y := Entries(a, book, path), Entries(b, book, path);
    FlatPermutes(a, b, EntriesOf(book, path));
    Sorting.SameSize(x, y);
    NamesFlat(a, book, path);
    NamesFlat(b, book, path);
    FlatPermutes(a, b, NamesOf(book, path));
    if x != [] {
      SettlePermutes(path, x, y, book);
    }
  }

  lemma {:induction false} TablePermutes(a: seq<Var>, b: seq<Var>, book: Book, groups: seq<string>)
    requires multiset(a) == multiset(b)
    ensures TableOf(a, book, groups) == TableOf(b, book, groups)
    ensures GroupErrors(a, book, groups) == GroupErrors(b, book, groups)
    decreases |groups|
  {
    if groups != [] {
      var n := |groups| - 1;
      TablePermutes(a, b, book, groups[..n]);
      OutcomePermutes(a, b, book, groups[n]);
    }
  }

  /** Every order of the environment gives the same layer. */
  lemma {:induction false} LayerForgetsOrder(a: seq<Var>, b: seq<Var>, book: Book)
    requires multiset(a) == multiset(b)
    ensures LayerOf(a, book) == LayerOf(b, book)
  {
    StringOrder();
    FlatPermutes(a, b, PathsOf(book));
    Sorting.SortForgetsOrder(Flat(a, PathsOf(book)), Flat(b, PathsOf(book)), StringLe);
    var groups := Groups(a, book);
    TablePermutes(a, b, book, groups);
    FlatPermutes(a, b, WarningsOf(book));
    Sorting.SortForgetsOrder(Flat(a, WarningsOf(book)), Flat(b, WarningsOf(book)), StringLe);
    FlatPermutes(a, b, FaultsOf(book));
    Sorting.SortForgetsOrder(
      Flat(a, FaultsOf(book)) + GroupErrors(a, book, groups),
      Flat(b, FaultsOf(book)) + GroupErrors(b, book, groups), StringLe);
  }

  // ---- What a key comes to ----

  predicate DotFree(s: string) { '.' !in s }

  /** No section or key of the field table holds a dot. */
  ghost predicate PlainBook(book: Book)
  {
    forall p :: p in book.kinds ==> DotFree(p.0) && DotFree(p.1)
  }

  lemma {:induction false} SplitDotFree(s: string)
    requires DotFree(s)
    ensures SplitOn(s, '.') == [s]
    decreases |s|
  {
    if s != "" {
      SplitDotFree(s[1..]);
      assert [s[0]] + s[1..] == s;
    }
  }

  lemma {:induction false} SplitPath(section: string, key: string)
    requires DotFree(section) && DotFree(key)
    ensures SplitOn(PathOf(section, key), '.') == [section, key]
    decreases |section|
  {
    var path := PathOf(section, key);
    if section == "" {
      assert path[1..] == key;
      SplitDotFree(key);
    } else {
      assert path[1..] == PathOf(section[1..], key);
      SplitPath(section[1..], key);
      assert path[0] == section[0] != '.';
      assert [section[0]] + section[1..] == section;
      assert [section[1..], key][1..] == [key];
    }
  }

  ghost predicate AllTables(table: map<string, Node>) { forall s :: s in table ==> table[s].Table? }

  lemma {:induction false} PutGet(table: map<string, Node>, s: string, k: string, value: Scalar, origin: string, s2: string, k2: string)
    requires AllTables(table) && DotFree(s) && DotFree(k)
    ensures var t := Put(table, PathOf(s, k), value, origin);
      AllTables(t) && Get(t, s2, k2) == if s == s2 && k == k2 then Some(Leaf(value, origin)) else Get(table, s2, k2)
  {
    SplitPath(s, k);
  }

  lemma {:induction false} PathInjective(s: string, k: string, s2: string, k2: string)
    requires DotFree(s) && DotFree(k) && DotFree(s2) && DotFree(k2) && PathOf(s, k) == PathOf(s2, k2)
    ensures s == s2 && k == k2
  {
    SplitPath(s, k);
    SplitPath(s2, k2);
  }

  /** `path` names a section and a key without dots. */
  ghost predicate PlainPath(path: string)
  {
    exists s, k :: DotFree(s) && DotFree(k) && path == PathOf(s, k)
  }

  lemma {:induction false} TableMeaning(vars: seq<Var>, book: Book, groups: seq<string>, s: string, k: string)
    requires DotFree(s) && DotFree(k) && forall i :: 0 <= i < |groups| ==> PlainPath(groups[i])
    ensures AllTables(TableOf(vars, book, groups))
    ensures Get(TableOf(vars, book, groups), s, k) ==
      if PathOf(s, k) in groups then Value(OutcomeOf(vars, book, PathOf(s, k))) else None
    decreases |groups|
  {
    if groups != [] {
      var n := |groups| - 1;
      TableMeaning(vars, book, groups[..n], s, k);
      TableStep(vars, book, groups, s, k);
      TableUnset(vars, book, groups[..n], s, k);
      LastAmong(groups, PathOf(s, k));
    }
  }

  lemma {:induction false} LastAmong(groups: seq<string>, path: string)
    requires groups != []
    ensures path in groups <==> path in groups[..|groups| - 1] || path == groups[|groups| - 1]
  {
    assert groups == groups[..|groups| - 1] + [groups[|groups| - 1]];
  }

  /** What the last group changes. */
  lemma {:induction false} TableStep(vars: seq<Var>, book: Book, groups: seq<string>, s: string, k: string)
    requires DotFree(s) && DotFree(k) && groups != [] && PlainPath(groups[|groups| - 1])
    requires AllTables(TableOf(vars, book, groups[..|groups| - 1]))
    ensures AllTables(TableOf(vars, book, groups))
    ensures var n := |groups| - 1;
      var before, now := Get(TableOf(vars, book, groups[..n]), s, k), Value(OutcomeOf(vars, book, groups[n]));
      Get(TableOf(vars, book, groups), s, k) == if groups[n] == PathOf(s, k) && now.Some? then now else before
  {
    var n := |groups| - 1;
    var s2, k2 :| DotFree(s2) && DotFree(k2) && groups[n] == PathOf(s2, k2);
    var out := OutcomeOf(vars, book, groups[n]);
    if out.Some? && out.value.Good? {
      PutGet(TableOf(vars, book, groups[..n]), s2, k2, out.value.value, out.value.origin, s, k);
    }
    if groups[n] == PathOf(s, k) {
      PathInjective(s, k, s2, k2);
    }
  }

  /** A key that settles badly is never set. */
  lemma {:induction false} TableUnset(vars: seq<Var>, book: Book, groups: seq<string>, s: string, k: string)
    requires DotFree(s) && DotFree(k) && forall i :: 0 <= i < |groups| ==> PlainPath(groups[i])
    ensures Value(OutcomeOf(vars, book, PathOf(s, k))).None? ==> Get(TableOf(vars, book, groups), s, k).None?
    ensures AllTables(TableOf(vars, book, groups))
    decreases |groups|
  {
    if groups != [] {
      var n := |groups| - 1;
      TableUnset(vars, book, groups[..n], s, k);
      var s2, k2 :| DotFree(s2) && DotFree(k2) && groups[n] == PathOf(s2, k2);
      var out := OutcomeOf(vars, book, groups[n]);
      if out.Some? && out.value.Good? {
        PutGet(TableOf(vars, book, groups[..n]), s2, k2, out.value.value, out.value.origin, s, k);
      }
    }
  }

  function Value(out: Option<Outcome>): Option<Node>
  {
    match out
    case Some(Good(value, origin)) => Some(Leaf(value, origin))
    case _ => None
  }

  // ---- Groups are the keys named, each once ----

  lemma {:induction false} DedupMeaning(xs: seq<string>)
    requires Sorting.SortedBy(xs, StringLe)
    ensures forall x :: x in Dedup(xs) <==> x in xs
    ensures forall i, j :: 0 <= i < j < |Dedup(xs)| ==> Dedup(xs)[i] != Dedup(xs)[j]
    decreases |xs|
  {
    if |xs| > 1 {
      DedupMeaning(xs[1..]);
      assert xs == [xs[0]] + xs[1..];
      if xs[0] != xs[1] && xs[0] in xs[1..] {
        var j :| 1 <= j < |xs| && xs[j] == xs[0];
        SameBetween(xs, j);
      }
    }
  }

  /** In a sorted list equal strings stand together. */
  lemma {:induction false} SameBetween(xs: seq<string>, j: nat)
    requires Sorting.SortedBy(xs, StringLe) && 1 <= j < |xs| && xs[j] == xs[0]
    ensures xs[1] == xs[0]
  {
    if j > 1 {
      StringLeAntisym(xs[0], xs[1]);
    }
  }

  lemma {:induction false} GroupsMeaning(vars: seq<Var>, book: Book, path: string)
    ensures path in Groups(vars, book) <==> Entries(vars, book, path) != []
    ensures forall i, j :: 0 <= i < j < |Groups(vars, book)| ==> Groups(vars, book)[i] != Groups(vars, book)[j]
  {
    var paths := Flat(vars, PathsOf(book));
    StringOrder();
    Sorting.SortSorts(paths, StringLe);
    Sorting.SortPermutes(paths, StringLe);
    Sorting.Members(Sorting.Sort(paths, StringLe), paths);
    DedupMeaning(Sorting.Sort(paths, StringLe));
    FlatMembers(vars, PathsOf(book), path);
    FlatEmpty(vars, EntriesOf(book, path));
    SamePath(vars, book, path);
  }

  lemma {:induction false} SamePath(vars: seq<Var>, book: Book, path: string)
    ensures forall i :: 0 <= i < |vars| ==> (path in PathsOf(book)(vars[i]) <==> EntriesOf(book, path)(vars[i]) != [])
  {
  }

  lemma {:induction false} GroupsPlain(vars: seq<Var>, book: Book)
    requires PlainBook(book)
    ensures forall i :: 0 <= i < |Groups(vars, book)| ==> PlainPath(Groups(vars, book)[i])
  {
    var groups := Groups(vars, book);
    forall i | 0 <= i < |groups| ensures PlainPath(groups[i]) {
      GroupsMeaning(vars, book, groups[i]);
      FlatEmpty(vars, EntriesOf(book, groups[i]));
      var j :| 0 <= j < |vars| && EntriesOf(book, groups[i])(vars[j]) != [];
      KnownIsPlain(vars[j], book);
    }
  }

  lemma {:induction false} KnownIsPlain(v: Var, book: Book)
    requires PlainBook(book) && Classify(v, book).Known?
    ensures PlainPath(Classify(v, book).path)
  {
  }

  /** A key is set exactly when one variable names it and its value is good; it
      is then that value. */
  lemma {:induction false} KeyMeaning(vars: seq<Var>, book: Book, s: string, k: string)
    requires PlainBook(book) && DotFree(s) && DotFree(k)
    ensures Get(LayerOf(vars, book).table, s, k) == Value(OutcomeOf(vars, book, PathOf(s, k)))
  {
    GroupsPlain(vars, book);
    GroupsMeaning(vars, book, PathOf(s, k));
    TableMeaning(vars, book, Groups(vars, book), s, k);
  }

  /** Every variable that is warned of or refused is reported, and no warning is
      made up. */
  lemma {:induction false} ReportsAll(vars: seq<Var>, book: Book)
    ensures forall x :: x in LayerOf(vars, book).warnings <==> exists i :: 0 <= i < |vars| && Classify(vars[i], book) == Warning(x)
    ensures forall i :: 0 <= i < |vars| && Classify(vars[i], book).Fault? ==> Classify(vars[i], book).text in LayerOf(vars, book).errors
  {
    WarningsReported(vars, book);
    FaultsReported(vars, book);
  }

  lemma {:induction false} WarningOf(v: Var, book: Book, x: string)
    ensures x in WarningsOf(book)(v) <==> Classify(v, book) == Warning(x)
  {
  }

  lemma {:induction false} WarnedOf(vars: seq<Var>, book: Book, x: string)
    ensures x in Flat(vars, WarningsOf(book)) <==> exists i :: 0 <= i < |vars| && Classify(vars[i], book) == Warning(x)
  {
    FlatMembers(vars, WarningsOf(book), x);
    forall i | 0 <= i < |vars| ensures x in WarningsOf(book)(vars[i]) <==> Classify(vars[i], book) == Warning(x) {
      WarningOf(vars[i], book, x);
    }
  }

  lemma {:induction false} WarningsReported(vars: seq<Var>, book: Book)
    ensures forall x :: x in LayerOf(vars, book).warnings <==> exists i :: 0 <= i < |vars| && Classify(vars[i], book) == Warning(x)
  {
    var warnings := Flat(vars, WarningsOf(book));
    Sorting.SortPermutes(warnings, StringLe);
    Sorting.Members(Sorting.Sort(warnings, StringLe), warnings);
    assert LayerOf(vars, book).warnings == Sorting.Sort(warnings, StringLe);
    forall x ensures x in warnings <==> exists i :: 0 <= i < |vars| && Classify(vars[i], book) == Warning(x) {
      WarnedOf(vars, book, x);
    }
  }

  lemma {:induction false} FaultsReported(vars: seq<Var>, book: Book)
    ensures forall i :: 0 <= i < |vars| && Classify(vars[i], book).Fault? ==> Classify(vars[i], book).text in LayerOf(vars, book).errors
  {
    var first, more := Flat(vars, FaultsOf(book)), GroupErrors(vars, book, Groups(vars, book));
    Sorting.SortPermutes(first + more, StringLe);
    Sorting.Members(Sorting.Sort(first + more, StringLe), first + more);
    forall i | 0 <= i < |vars| && Classify(vars[i], book).Fault? ensures Classify(vars[i], book).text in first {
      var x := Classify(vars[i], book).text;
      FlatMembers(vars, FaultsOf(book), x);
      assert x in FaultsOf(book)(vars[i]);
    }
  }

  // ---- Which variables name a key, and what its text means ----

  predicate OneWord(s: string) { forall i :: 0 <= i < |s| ==> !StartsWith(s[i..], "__") }

  lemma {:induction false} SplitPair(s: string, k: string)
    requires OneWord(s) && OneWord(k) && (s == "" || s[|s| - 1] != '_')
    ensures SplitAll(s + "__" + k) == [s, k]
  {
    var all := s + "__" + k;
    forall i | 0 <= i < |s| ensures !StartsWith(all[i..], "__") {
      StartsAt(s, "__" + k, i);
      assert s + ("__" + k) == all;
    }
    FindFrom(all, "__", |s|);
    assert all[|s|..] == "__" + k && ("__" + k)[..2] == "__";
    assert all[..|s|] == s && all[|s| + 2..] == k;
    NoneFound(k);
    assert SplitAll(k) == [k];
  }

  lemma {:induction false} StartsAt(s: string, more: string, i: nat)
    requires i < |s| && s[|s| - 1] != '_' && |more| >= 2
    ensures StartsWith((s + more)[i..], "__") <==> StartsWith(s[i..], "__")
  {
    var t := (s + more)[i..];
    assert t[0] == s[i];
    if i + 1 < |s| {
      assert t[..2] == s[i..][..2];
    }
  }

  lemma {:induction false} NoneFound(k: string)
    requires OneWord(k)
    ensures Find(k, "__").None?
  {
    assert k[0..] == k;
    if k != "" {
      forall i | 0 <= i < |k[1..]| ensures !StartsWith(k[1..][i..], "__") {
        assert k[1..][i..] == k[i + 1..];
      }
      NoneFound(k[1..]);
    }
  }

  /** A variable in any letter case that spells section and key behind the
      prefix names that key. */
  lemma {:induction false} NamesKey(v: Var, book: Book, s: string, k: string)
    requires v.name.Some? && StartsWith(v.name.value, PREFIX) && v.name.value !in book.skipped
    requires AsciiLower(v.name.value[|PREFIX|..]) == s + "__" + k && (s, k) in book.kinds
    requires OneWord(s) && OneWord(k) && (s == "" || s[|s| - 1] != '_')
    ensures Classify(v, book) == Known(PathOf(s, k), Entry(v.name.value, v.value, book.kinds[(s, k)]))
  {
    SplitPair(s, k);
    LongerThanPrefix(v.name.value, s + "__" + k);
    var parts := SplitAll(AsciiLower(v.name.value[|PREFIX|..]));
    assert parts[0] == s && parts[1] == k;
  }

  lemma {:induction false} LongerThanPrefix(name: string, rest: string)
    requires StartsWith(name, PREFIX) && AsciiLower(name[|PREFIX|..]) == rest != ""
    ensures name != PREFIX
  {
    assert PREFIX[|PREFIX|..] == "" && AsciiLower("") == "";
  }

  const YES: set<string> := {"1", "true", "on", "yes", "y"}
  const NO: set<string> := {"0", "false", "off", "no", "n"}

  /** A boolean key named by one variable is on for the words of yes, off for
      those of no, in any letter case and with blanks around, and unset for any
      other text. */
  lemma {:induction false} BoolKey(vars: seq<Var>, book: Book, s: string, k: string, name: string, text: string)
    requires PlainBook(book) && DotFree(s) && DotFree(k) && PathOf(s, k) != "transport.token"
    requires Entries(vars, book, PathOf(s, k)) == [Entry(name, Some(text), Bool)]
    ensures var found, word := Get(LayerOf(vars, book).table, s, k), AsciiLower(Trim(text, IsWhitespace));
      && (word in YES ==> found == Some(Leaf(Flag(true), name)))
      && (word in NO ==> found == Some(Leaf(Flag(false), name)))
      && (word !in YES && word !in NO ==> found == None)
  {
    KeyMeaning(vars, book, s, k);
    BoolEntry(PathOf(s, k), name, text, book);
  }

  lemma {:induction false} BoolishWords(text: string)
    ensures var word := AsciiLower(Trim(text, IsWhitespace));
      && (word in YES ==> Boolish(text) == Some(true)) && (word in NO ==> Boolish(text) == Some(false))
      && (word !in YES && word !in NO ==> Boolish(text) == None)
  {
  }

  lemma {:induction false} BoolEntry(path: string, name: string, text: string, book: Book)
    requires path != "transport.token"
    ensures var out, word := Settle(path, [Entry(name, Some(text), Bool)], book), AsciiLower(Trim(text, IsWhitespace));
      && (word in YES ==> out == Good(Flag(true), name)) && (word in NO ==> out == Good(Flag(false), name))
      && (word !in YES && word !in NO ==> out.Bad?)
  {
    BoolishWords(text);
    assert [Entry(name, Some(text), Bool)][0] == Entry(name, Some(text), Bool);
  }

  /** A text key named by one variable holds its text as it is, and a number key
      the number its trimmed text parses to, if it does. */
  lemma {:induction false} TextKey(vars: seq<Var>, book: Book, s: string, k: string, name: string, text: string, kind: FieldKind)
    requires PlainBook(book) && DotFree(s) && DotFree(k) && PathOf(s, k) != "transport.token"
    requires Entries(vars, book, PathOf(s, k)) == [Entry(name, Some(text), kind)]
    ensures var found, n := Get(LayerOf(vars, book).table, s, k), book.parseInt(Trim(text, IsWhitespace));
      && (kind == Str ==> found == Some(Leaf(Chars(text), name)))
      && (kind == Int ==> found == if n.Some? then Some(Leaf(Number(n.value), name)) else None)
  {
    KeyMeaning(vars, book, s, k);
    assert [Entry(name, Some(text), kind)][0] == Entry(name, Some(text), kind);
  }

  /** A list key named by one variable holds the pieces between its commas, in
      order, trimmed, the blank ones left out. */
  lemma {:induction false} ListKey(vars: seq<Var>, book: Book, s: string, k: string, name: string, text: string)
    requires PlainBook(book) && DotFree(s) && DotFree(k) && PathOf(s, k) != "transport.token"
    requires Entries(vars, book, PathOf(s, k)) == [Entry(name, Some(text), List)]
    ensures exists items :: Get(LayerOf(vars, book).table, s, k) == Some(Leaf(Items(items), name)) && TrimmedOf(items, SplitOn(text, ','))
  {
    KeyMeaning(vars, book, s, k);
    TrimmedItemsMeaning(SplitOn(text, ','));
    assert Get(LayerOf(vars, book).table, s, k) == Some(Leaf(Items(TrimmedItems(SplitOn(text, ','))), name));
  }

  ghost predicate TrimmedOf(items: seq<string>, parts: seq<string>)
  {
    && (forall x :: x in items <==> x != "" && exists p :: p in parts && Trim(p, IsWhitespace) == x)
    && |items| == Nonblank(parts)
  }

  function Nonblank(parts: seq<string>): nat
  {
    if parts == [] then 0 else (if Trim(parts[0], IsWhitespace) == "" then 0 else 1) + Nonblank(parts[1..])
  }

  lemma {:induction false} TrimmedItemsMeaning(parts: seq<string>)
    ensures TrimmedOf(TrimmedItems(parts), parts)
  {
    if parts != [] {
      TrimmedItemsMeaning(parts[1..]);
      assert forall p :: p in parts <==> p == parts[0] || p in parts[1..];
    }
  }

  lemma {:induction false} ErrorsConcat(vars: seq<Var>, book: Book, a: seq<string>, b: seq<string>)
    ensures GroupErrors(vars, book, a + b) == GroupErrors(vars, book, a) + GroupErrors(vars, book, b)
    decreases |b|
  {
    if b == [] {
      assert a + b == a;
    } else {
      var n := |b| - 1;
      assert (a + b)[..|a + b| - 1] == a + b[..n];
      ErrorsConcat(vars, book, a, b[..n]);
    }
  }

  /** A key named by two variables is set by neither, and is one error. */
  lemma {:induction false} Collides(vars: seq<Var>, book: Book, s: string, k: string)
    requires PlainBook(book) && DotFree(s) && DotFree(k) && |Entries(vars, book, PathOf(s, k))| > 1
    ensures Get(LayerOf(vars, book).table, s, k).None?
    ensures exists i :: 0 <= i < |Groups(vars, book)| && Groups(vars, book)[i] == PathOf(s, k) && OneErrorAt(vars, book, i)
  {
    KeyMeaning(vars, book, s, k);
    var path, groups := PathOf(s, k), Groups(vars, book);
    GroupsMeaning(vars, book, path);
    var i :| 0 <= i < |groups| && groups[i] == path;
    ErrorSplit(vars, book, groups, i);
    BadAlone(vars, book, path);
    assert path !in groups[..i] && path !in groups[i + 1..];
    assert OneErrorAt(vars, book, i);
  }

  lemma {:induction false} BadAlone(vars: seq<Var>, book: Book, path: string)
    requires |Entries(vars, book, path)| > 1
    ensures GroupErrors(vars, book, [path]) == [Collision(Entries(vars, book, path), path)]
  {
  }

  lemma {:induction false} ErrorSplit(vars: seq<Var>, book: Book, groups: seq<string>, i: nat)
    requires i < |groups|
    ensures GroupErrors(vars, book, groups)
         == GroupErrors(vars, book, groups[..i]) + GroupErrors(vars, book, [groups[i]]) + GroupErrors(vars, book, groups[i + 1..])
  {
    var before, after := groups[..i], groups[i + 1..];
    assert groups == before + ([groups[i]] + after);
    ErrorsConcat(vars, book, before, [groups[i]] + after);
    ErrorsConcat(vars, book, [groups[i]], after);
  }

  /** The group at `i` adds one error, which names its variables, and stands
      nowhere else in the list. */
  ghost predicate OneErrorAt(vars: seq<Var>, book: Book, i: nat)
    requires i < |Groups(vars, book)|
  {
    var groups := Groups(vars, book);
    var path := groups[i];
    && path !in groups[..i] && path !in groups[i + 1..]
    && GroupErrors(vars, book, groups)
       == GroupErrors(vars, book, groups[..i]) + [Collision(Entries(vars, book, path), path)] + GroupErrors(vars, book, groups[i + 1..])
  }

  // ---- The parser ----

  /** The entries collected for each key. */
  ghost predicate Collected(recognized: map<string, seq<Entry>>, vars: seq<Var>, book: Book)
  {
    forall path :: Held(recognized, path) == Entries(vars, book, path)
  }

  function Held(recognized: map<string, seq<Entry>>, path: string): seq<Entry>
  {
    if path in recognized then recognized[path] else []
  }

  lemma {:induction false} CollectedStep(recognized: map<string, seq<Entry>>, vars: seq<Var>, n: nat, book: Book)
    requires n < |vars| && Collected(recognized, vars[..n], book)
    ensures var c := Classify(vars[n], book);
      Collected(if c.Known? then recognized[c.path := Held(recognized, c.path) + [c.entry]] else recognized, vars[..n + 1], book)
  {
    var c := Classify(vars[n], book);
    var recognized' := if c.Known? then recognized[c.path := Held(recognized, c.path) + [c.entry]] else recognized;
    forall path ensures Held(recognized', path) == Entries(vars[..n + 1], book, path) {
      FlatSnoc(vars, n, EntriesOf(book, path));
      assert Held(recognized, path) == Entries(vars[..n], book, path);
    }
  }

  method ReadVars(vars: seq<Var>, book: Book)
    returns (recognized: map<string, seq<Entry>>, paths: seq<string>, warnings: seq<string>, errors: seq<string>)
    ensures Collected(recognized, vars, book)
    ensures paths == Flat(vars, PathsOf(book))
    ensures warnings == Flat(vars, WarningsOf(book)) && errors == Flat(vars, FaultsOf(book))
  {
    recognized, paths, warnings, errors := map[], [], [], [];
    for i := 0 to |vars|
      invariant Collected(recognized, vars[..i], book)
      invariant paths == Flat(vars[..i], PathsOf(book))
      invariant warnings == Flat(vars[..i], WarningsOf(book)) && errors == Flat(vars[..i], FaultsOf(book))
    {
      CollectedStep(recognized, vars, i, book);
      FlatSnoc(vars, i, PathsOf(book));
      FlatSnoc(vars, i, WarningsOf(book));
      FlatSnoc(vars, i, FaultsOf(book));
      var c := Classify(vars[i], book);
      match c {
        case Skip =>
        case Fault(text) => errors := errors + [text];
        case Warning(text) => warnings := warnings + [text];
        case Known(path, entry) =>
          recognized := recognized[path := Held(recognized, path) + [entry]];
          paths := paths + [path];
      }
    }
    assert vars[..|vars|] == vars;
  }

  method SettleGroups(recognized: map<string, seq<Entry>>, groups: seq<string>, book: Book, ghost vars: seq<Var>)
    returns (table: map<string, Node>, errors: seq<string>)
    requires Collected(recognized, vars, book)
    ensures table == TableOf(vars, book, groups) && errors == GroupErrors(vars, book, groups)
  {
    table, errors := map[], [];
    for i := 0 to |groups|
      invariant table == TableOf(vars, book, groups[..i]) && errors == GroupErrors(vars, book, groups[..i])
    {
      assert groups[..i + 1][..i] == groups[..i];
      var entries := Held(recognized, groups[i]);
      assert entries == Entries(vars, book, groups[i]);
      if entries != [] {
        var out := Settle(groups[i], entries, book);
        match out {
          case Good(value, origin) => table := Put(table, groups[i], value, origin);
          case Bad(text) => errors := errors + [text];
        }
      }
    }
    assert groups[..|groups|] == groups;
  }

  method NewEnvLayer(vars: seq<Var>, book: Book) returns (r: Layer)
    ensures r == LayerOf(vars, book)
  {
    var recognized, paths, warnings, faults := ReadVars(vars, book);
    var groups := Dedup(Sorting.Sort(paths, StringLe));
    var table, errors := SettleGroups(recognized, groups, book, vars);
    r := Layer(table, Sorting.Sort(warnings, StringLe), Sorting.Sort(faults + errors, StringLe));
  }
}
