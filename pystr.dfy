/** Python `str` semantics used by the modelled code: `<=`, `split("-")`, `lstrip` and `"%s" % n`. */
module PyStr {
  import opened PyColl

  /** The separator the code splits and joins keys with. */
  const SEP: char := '-'

  // ---------------------------------------------------------------------------
  // String ordering

  /** Python's `a <= b` on `str`: lexicographic comparison by code point. */
  predicate Le(a: string, b: string)
    decreases |a|
  {
    |a| == 0 || (|b| > 0 && (a[0] < b[0] || (a[0] == b[0] && Le(a[1..], b[1..]))))
  }

  /** Python's `a < b` on `str`. */
  predicate Lt(a: string, b: string)
  {
    Le(a, b) && a != b
  }

  lemma {:induction false} LeReflexive(a: string)
    ensures Le(a, a)
  {
    if |a| > 0 {
      LeReflexive(a[1..]);
    }
  }

  lemma {:induction false} LeAntisymmetric(a: string, b: string)
    requires Le(a, b) && Le(b, a)
    ensures a == b
  {
    if |a| > 0 && |b| > 0 {
      LeAntisymmetric(a[1..], b[1..]);
      assert a == [a[0]] + a[1..] && b == [b[0]] + b[1..];
    }
  }

  lemma {:induction false} LeTransitive(a: string, b: string, c: string)
    requires Le(a, b) && Le(b, c)
    ensures Le(a, c)
  {
    if |a| > 0 && |b| > 0 && |c| > 0 && a[0] == b[0] == c[0] {
      LeTransitive(a[1..], b[1..], c[1..]);
    }
  }

  lemma {:induction false} LeTotal(a: string, b: string)
    ensures Le(a, b) || Le(b, a)
  {
    if |a| > 0 && |b| > 0 && a[0] == b[0] {
      LeTotal(a[1..], b[1..]);
    }
  }

  /** Python's `<=` on `str` is a total order. */
  lemma LeTotalOrder()
    ensures forall a :: Le(a, a)
    ensures forall a, b :: Le(a, b) && Le(b, a) ==> a == b
    ensures forall a, b, c :: Le(a, b) && Le(b, c) ==> Le(a, c)
    ensures forall a, b :: Le(a, b) || Le(b, a)
  {
    forall a { LeReflexive(a); }
    forall a, b | Le(a, b) && Le(b, a) { LeAntisymmetric(a, b); }
    forall a, b, c | Le(a, b) && Le(b, c) { LeTransitive(a, b, c); }
    forall a, b { LeTotal(a, b); }
  }

  /** `<` followed by `<=`, or `<=` followed by `<`, is `<`. */
  lemma LtTransitive(a: string, b: string, c: string)
    requires (Lt(a, b) && Le(b, c)) || (Le(a, b) && Lt(b, c))
    ensures Lt(a, c)
  {
    LeTransitive(a, b, c);
    if a == c {
      LeAntisymmetric(a, b);
    }
  }

  // ---------------------------------------------------------------------------
  // split("-") and "-".join

  /** Python `s.split("-")`: the pieces between separators, empty pieces kept. */
  function Split(s: string): (parts: seq<string>)
    ensures |parts| >= 1
  {
    if |s| == 0 then [""]
    else
      var rest := Split(s[1..]);
      if s[0] == SEP then [""] + rest
      else [[s[0]] + rest[0]] + rest[1..]
  }

  /** One more piece than there are separators, and no piece holds a separator. */
  lemma {:induction false} SplitShape(s: string)
    ensures |Split(s)| == Count(s, SEP) + 1
    ensures forall i :: 0 <= i < |Split(s)| ==> SEP !in Split(s)[i]
  {
    if |s| > 0 {
      SplitShape(s[1..]);
      CountCons(s, SEP);
    }
  }

  /** A string splits into two or more pieces exactly when it holds a separator. */
  lemma SplitHasSecond(s: string)
    ensures |Split(s)| >= 2 <==> SEP in s
  {
    SplitShape(s);
    CountPositive(s, SEP);
  }

  /** Python `"-".join(parts)`. */
  function Join(parts: seq<string>): string
    requires |parts| >= 1
  {
    if |parts| == 1 then parts[0] else parts[0] + [SEP] + Join(parts[1..])
  }

  /** Joining the pieces of a split gives the string back. */
  lemma {:induction false} JoinSplit(s: string)
    ensures Join(Split(s)) == s
  {
    if |s| > 0 {
      var rest := Split(s[1..]);
      JoinSplit(s[1..]);
      if s[0] == SEP {
        assert ([""] + rest)[1..] == rest;
        assert s == [SEP] + s[1..];
      } else if |rest| == 1 {
        assert s == [s[0]] + s[1..];
      } else {
        var parts := [[s[0]] + rest[0]] + rest[1..];
        assert parts[1..] == rest[1..];
        assert Join(rest) == rest[0] + [SEP] + Join(rest[1..]);
        assert s == [s[0]] + s[1..];
      }
    }
  }

  /** A leading character other than the separator joins the first piece. */
  lemma SplitCons(c: char, u: string)
    requires c != SEP
    ensures Split([c] + u) == [[c] + Split(u)[0]] + Split(u)[1..]
  {
    assert ([c] + u)[1..] == u;
  }

  /** The inductive step of `SplitPrefix`: one more leading character. */
  lemma SplitPrefixStep(a: string, t: string)
    requires |a| > 0 && a[0] != SEP
    requires Split(a[1..] + t) == [a[1..] + Split(t)[0]] + Split(t)[1..]
    ensures Split(a + t) == [a + Split(t)[0]] + Split(t)[1..]
  {
    var x, u := a[1..] + t, Split(t);
    var sx := Split(x);
    assert sx[0] == a[1..] + u[0] && sx[1..] == u[1..];
    AppendCons(a, t);
    SplitCons(a[0], x);
    assert [a[0]] + sx[0] == a + u[0] by {
      assert a == [a[0]] + a[1..];
    }
  }

  /** A piece without a separator glues onto the first piece of whatever follows it. */
  lemma {:induction false} SplitPrefix(a: string, t: string)
    requires SEP !in a
    ensures Split(a + t) == [a + Split(t)[0]] + Split(t)[1..]
  {
    if |a| == 0 {
      assert a + t == t;
      assert a + Split(t)[0] == Split(t)[0];
    } else {
      SplitPrefix(a[1..], t);
      SplitPrefixStep(a, t);
    }
  }

  /** Splitting a join of separator-free pieces gives the pieces back. */
  lemma {:induction false} SplitJoin(parts: seq<string>)
    requires |parts| >= 1
    requires forall i :: 0 <= i < |parts| ==> SEP !in parts[i]
    ensures Split(Join(parts)) == parts
  {
    if |parts| == 1 {
      SplitPrefix(parts[0], "");
      assert parts[0] + "" == parts[0];
    } else {
      var tail := Join(parts[1..]);
      SplitJoin(parts[1..]);
      assert Join(parts) == parts[0] + ([SEP] + tail);
      SplitPrefix(parts[0], [SEP] + tail);
      assert ([SEP] + tail)[1..] == tail;
      assert Split([SEP] + tail) == [""] + parts[1..];
      assert parts[0] + "" == parts[0];
      assert parts == [parts[0]] + parts[1..];
    }
  }

  /** A key `a + "-" + b` built from separator-free labels splits back into `[a, b]`. */
  lemma PairKeySplit(a: string, b: string)
    requires SEP !in a && SEP !in b
    ensures Split(a + "-" + b) == [a, b]
  {
    assert Join([a, b]) == a + "-" + b;
    SplitJoin([a, b]);
  }

  // ---------------------------------------------------------------------------
  // lstrip

  /**
   * Python `s.lstrip(chars)`: removes the longest prefix made only of
   * characters that occur in `chars` (a character set, not a prefix).
   */
  function LStrip(s: string, chars: string): string
  {
    if |s| > 0 && s[0] in chars then LStrip(s[1..], chars) else s
  }

  /** What is left is a suffix of `s`; what went is in `chars`; what is left does not start with a char of `chars`. */
  lemma {:induction false} LStripShape(s: string, chars: string)
    ensures var r := LStrip(s, chars);
      && |r| <= |s| && r == s[|s| - |r|..]
      && (forall i :: 0 <= i < |s| - |r| ==> s[i] in chars)
      && (r == [] || r[0] !in chars)
  {
    if |s| > 0 && s[0] in chars {
      LStripShape(s[1..], chars);
      var r := LStrip(s, chars);
      forall i | 0 < i < |s| - |r|
        ensures s[i] in chars
      {
        assert s[i] == s[1..][i - 1];
      }
    }
  }

  /** A prefix made of stripped characters goes, and nothing after it does. */
  lemma {:induction false} LStripPrefix(a: string, t: string, chars: string)
    requires forall i :: 0 <= i < |a| ==> a[i] in chars
    requires t == [] || t[0] !in chars
    ensures LStrip(a + t, chars) == t
  {
    var s := a + t;
    if |a| > 0 {
      LStripPrefix(a[1..], t, chars);
      assert s[0] == a[0] && s[1..] == a[1..] + t;
    } else {
      assert s == t;
    }
  }

  // ---------------------------------------------------------------------------
  // "%s" % n for a non-negative int

  function DigitChar(d: nat): char
    requires d < 10
  {
    "0123456789"[d]
  }

  function DigitValue(c: char): nat
  {
    if '0' <= c <= '9' then (c - '0') as nat else 0
  }

  /** `"%s" % n`: the decimal digits of `n`. */
  function NatStr(n: nat): (s: string)
    ensures |s| >= 1
    ensures forall i :: 0 <= i < |s| ==> '0' <= s[i] <= '9'
  {
    if n < 10 then [DigitChar(n)] else NatStr(n / 10) + [DigitChar(n % 10)]
  }

  /** Reading decimal digits (Python `int(s)` on a digit string). */
  function ParseNat(s: string): nat
  {
    if |s| == 0 then 0 else ParseNat(s[..|s| - 1]) * 10 + DigitValue(s[|s| - 1])
  }

  /** The printed id reads back as the same number. */
  lemma {:induction false} NatStrRoundTrip(n: nat)
    ensures ParseNat(NatStr(n)) == n
  {
    if n >= 10 {
      NatStrRoundTrip(n / 10);
      var s := NatStr(n);
      assert s[..|s| - 1] == NatStr(n / 10);
      assert DigitValue(DigitChar(n % 10)) == n % 10;
    } else {
      assert DigitValue(DigitChar(n)) == n;
    }
  }
}
