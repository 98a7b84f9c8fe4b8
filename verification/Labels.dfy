/** Hosts as lists of labels. */
module Labels {
  import opened Options
  import opened Text

  function LabelsOf(host: string): seq<string> { SplitOn(host, '.') }

  predicate TailOf<T(==)>(xs: seq<T>, ys: seq<T>) { |xs| <= |ys| && ys[|ys| - |xs|..] == xs }

  /** `h` is `d` or what follows one of its dots. */
  predicate LabelSuffix(h: string, d: string)
  {
    h == d || (|h| < |d| && d[|d| - |h| - 1] == '.' && d[|d| - |h|..] == h)
  }

  lemma {:induction false} EndsWithMeaning(s: string, p: string)
    ensures EndsWith(s, p) <==> |p| <= |s| && s[|s| - |p|..] == p
  {
    if |p| < |s| {
      EndsWithMeaning(s[1..], p);
      assert s[1..][|s| - 1 - |p|..] == s[|s| - |p|..];
    } else if |p| == |s| {
      assert s[0..] == s;
    }
  }

  lemma {:induction false} DotEndsWith(h: string, d: string)
    ensures h == d || EndsWith(h, "." + d) <==> LabelSuffix(d, h)
  {
    EndsWithMeaning(h, "." + d);
    if |d| < |h| {
      var n := |h| - |d|;
      assert h[n - 1..] == [h[n - 1]] + h[n..];
      assert ("." + d)[0] == '.' && ("." + d)[1..] == d;
    }
  }

  lemma {:induction false} LabelSuffixCut(h: string, d: string)
    ensures LabelSuffix(h, d) <==> h == d || exists a :: d == a + "." + h
  {
    if h != d && LabelSuffix(h, d) {
      var a := d[..|d| - |h| - 1];
      assert d == a + "." + h;
    }
  }

  // ---- Splitting at dots ----

  lemma {:induction false} SplitDot(a: string, b: string)
    ensures LabelsOf(a + "." + b) == LabelsOf(a) + LabelsOf(b)
  {
    var s := a + "." + b;
    if a == "" {
      assert s[1..] == b;
    } else {
      assert s[0] == a[0] && s[1..] == a[1..] + "." + b;
      SplitDot(a[1..], b);
      if a[0] != '.' {
        var x, y := LabelsOf(a[1..]), LabelsOf(b);
        assert [[a[0]] + (x + y)[0]] + (x + y)[1..] == [[a[0]] + x[0]] + x[1..] + y;
      }
    }
  }

  lemma {:induction false} JoinLabels(s: string)
    ensures JoinWith(LabelsOf(s), ".") == s
  {
    if s != "" {
      var rest := LabelsOf(s[1..]);
      JoinLabels(s[1..]);
      assert s == [s[0]] + s[1..];
      if s[0] == '.' {
        assert ([""] + rest)[1..] == rest;
        assert JoinWith([""] + rest, ".") == "" + "." + s[1..];
      } else {
        JoinHead(s[0], rest);
      }
    }
  }

  lemma {:induction false} JoinHead(c: char, parts: seq<string>)
    requires parts != []
    ensures JoinWith([[c] + parts[0]] + parts[1..], ".") == [c] + JoinWith(parts, ".")
  {
    var all := [[c] + parts[0]] + parts[1..];
    assert all[1..] == parts[1..];
    if |parts| > 1 {
      assert [c] + parts[0] + "." + JoinWith(parts[1..], ".") == [c] + (parts[0] + "." + JoinWith(parts[1..], "."));
    }
  }

  lemma {:induction false} JoinConcat(xs: seq<string>, ys: seq<string>)
    requires xs != [] && ys != []
    ensures JoinWith(xs + ys, ".") == JoinWith(xs, ".") + "." + JoinWith(ys, ".")
  {
    var all := xs + ys;
    assert all[0] == xs[0];
    if |xs| == 1 {
      assert all[1..] == ys;
    } else {
      assert all[1..] == xs[1..] + ys;
      JoinConcat(xs[1..], ys);
      assert xs[0] + "." + (JoinWith(xs[1..], ".") + "." + JoinWith(ys, "."))
          == xs[0] + "." + JoinWith(xs[1..], ".") + "." + JoinWith(ys, ".");
    }
  }

  /** A host is another or what follows one of its dots exactly when its labels
      are the last labels of the other. */
  lemma {:induction false} LabelSuffixIff(h: string, d: string)
    ensures LabelSuffix(h, d) <==> TailOf(LabelsOf(h), LabelsOf(d))
  {
    var x, y := LabelsOf(h), LabelsOf(d);
    LabelSuffixCut(h, d);
    if LabelSuffix(h, d) && h != d {
      var a :| d == a + "." + h;
      SplitDot(a, h);
    }
    if TailOf(x, y) {
      var n := |y| - |x|;
      JoinLabels(h);
      JoinLabels(d);
      assert y == y[..n] + x;
      if n > 0 {
        JoinConcat(y[..n], x);
        assert d == JoinWith(y[..n], ".") + "." + h;
      } else {
        assert y[..n] + x == x;
      }
    }
  }
}
