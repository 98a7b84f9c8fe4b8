/** Where a markdown link closes, by counting parentheses. */
module LinkClose {
  import opened Options
  import opened Text
  import opened LinkText

  function Count(s: string, c: char): nat { if s == "" then 0 else (if s[0] == c then 1 else 0) + Count(s[1..], c) }

  /** More parentheses close before `n` than open, `depth` being open already. */
  predicate Overclosed(s: string, n: nat, depth: nat)
    requires n <= |s|
  {
    Count(s[..n], ')') > Count(s[..n], '(') + depth
  }

  lemma {:induction false} CountCons(s: string, n: nat, c: char)
    requires 0 < n <= |s|
    ensures Count(s[..n], c) == (if s[0] == c then 1 else 0) + Count(s[1..][..n - 1], c)
  {
    assert s[..n][1..] == s[1..][..n - 1];
  }

  lemma {:induction false} CloseAtMeaning(s: string, depth: nat)
    ensures var r := CloseAt(s, depth);
      && (r.Some? ==> Overclosed(s, r.value + 1, depth) && forall n :: 0 <= n <= r.value ==> !Overclosed(s, n, depth))
      && (r.None? ==> forall n :: 0 <= n <= |s| ==> !Overclosed(s, n, depth))
  {
    assert !Overclosed(s, 0, depth);
    if s != "" {
      CountCons(s, 1, ')');
      CountCons(s, 1, '(');
      assert s[1..][..0] == "";
      if s[0] == ')' && depth == 0 {
        assert Overclosed(s, 1, depth);
      } else {
        var deeper := if s[0] == '(' then depth + 1 else if s[0] == ')' then depth - 1 else depth;
        CloseAtMeaning(s[1..], deeper);
        forall n | 0 < n <= |s| ensures Overclosed(s, n, depth) <==> Overclosed(s[1..], n - 1, deeper) {
          CountCons(s, n, ')');
          CountCons(s, n, '(');
        }
      }
    }
  }

  lemma {:induction false} FirstCloseMeaning(s: string)
    ensures var r := FirstClose(s);
      if r.Some? then ')' !in s[..r.value] else ')' !in s
  {
    if s != "" && s[0] != ')' {
      FirstCloseMeaning(s[1..]);
      var r := FirstClose(s);
      if r.Some? { assert s[..r.value] == [s[0]] + s[1..][..r.value - 1]; }
    }
  }

  /** A link closes at the first ')' that outnumbers the '(' before it; if none
      does, at the first ')' of all; and nowhere if there is none. */
  lemma {:induction false} ClosesIff(s: string)
    ensures var r := BalancedClose(s);
      && (r.None? <==> ')' !in s)
      && (r.Some? ==>
            && s[r.value] == ')'
            && if (exists n :: 0 <= n <= |s| && Overclosed(s, n, 0))
               then Overclosed(s, r.value + 1, 0) && forall n :: 0 <= n <= r.value ==> !Overclosed(s, n, 0)
               else ')' !in s[..r.value])
  {
    CloseAtMeaning(s, 0);
    FirstCloseMeaning(s);
  }

  lemma {:induction false} HasSpaceMeaning(s: string)
    ensures HasSpace(s) <==> exists c :: c in s && IsWhitespace(c)
  {
    if s != "" {
      HasSpaceMeaning(s[1..]);
      assert s == [s[0]] + s[1..];
    }
  }

  predicate Spaced(s: string) { exists c :: c in s && IsWhitespace(c) }

  /** The first "](http" is a link to replace when it closes with no blank
      before the close; with one it is copied; and without a close nothing
      further is replaced. */
  lemma {:induction false} LinkDecides(t: string)
    requires Find(t, OPENING).Some?
    ensures var start, next := Find(t, OPENING).value + 2, NextLink(t);
      && start <= |t|
      && var close := BalancedClose(t[start..]);
         && (next.Stop? <==> close.None?)
         && (next.Swap? <==> close.Some? && forall c :: c in t[start..][..close.value] ==> !IsWhitespace(c))
         && (next.Swap? ==> next == Swap(start, close.value)) && (next.Copy? ==> next == Copy(start + 4))
  {
    var start := Find(t, OPENING).value + 2;
    var close := BalancedClose(t[start..]);
    if close.Some? { HasSpaceMeaning(t[start..][..close.value]); }
  }
}
