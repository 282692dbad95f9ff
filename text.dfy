/**
 The few pieces of Python's `str` that the modelled code relies on:
 `isspace`, `split(sep)` and its inverse `join`, `endswith`, and `lower`
 as far as ASCII letters go.
 */
module Text {

  /**
   The characters Python's `str.isspace()` accepts, which is also what `\s`
   matches in a pattern compiled from a `str`.
   */
  const Whitespace: set<char> := {
    '\t', '\n', '\U{b}', '\U{c}', '\r',                          // tab, line feed, vertical tab, form feed, carriage return
    '\U{1c}', '\U{1d}', '\U{1e}', '\U{1f}',                      // file, group, record and unit separators
    ' ', '\U{85}', '\U{a0}', '\U{1680}',
    '\U{2000}', '\U{2001}', '\U{2002}', '\U{2003}', '\U{2004}', '\U{2005}',
    '\U{2006}', '\U{2007}', '\U{2008}', '\U{2009}', '\U{200a}',  // en quad .. hair space
    '\U{2028}', '\U{2029}', '\U{202f}', '\U{205f}', '\U{3000}'
  }

  predicate IsSpace(c: char)
  {
    c in Whitespace
  }

  /** `s.split(sep)` for a one-character separator: never empty, pieces never hold `sep`. */
  function Split(s: string, sep: char): (parts: seq<string>)
    ensures |parts| >= 1
    ensures forall i :: 0 <= i < |parts| ==> sep !in parts[i]
    ensures |parts| == 1 <==> sep !in s
  {
    if |s| == 0 then [""]
    else if s[0] == sep then [""] + Split(s[1..], sep)
    else
      var rest := Split(s[1..], sep);
      [[s[0]] + rest[0]] + rest[1..]
  }

  /** `sep.join(parts)`. */
  function Join(parts: seq<string>, sep: char): (s: string)
    requires |parts| >= 1
    decreases |parts|
  {
    if |parts| == 1 then parts[0] else parts[0] + [sep] + Join(parts[1..], sep)
  }

  /** Prefixing the first piece with `c` prefixes the join with `c`. */
  lemma JoinExtendFirst(c: char, parts: seq<string>, sep: char)
    requires |parts| >= 1
    ensures Join([[c] + parts[0]] + parts[1..], sep) == [c] + Join(parts, sep)
  {
    var extended := [[c] + parts[0]] + parts[1..];
    if |parts| > 1 {
      assert extended[1..] == parts[1..];
      assert ([c] + parts[0]) + [sep] + Join(parts[1..], sep) == [c] + (parts[0] + [sep] + Join(parts[1..], sep));
    }
  }

  /** Joining the pieces of a split gives the original text back. */
  lemma {:induction false} JoinSplit(s: string, sep: char)
    ensures Join(Split(s, sep), sep) == s
  {
    if |s| > 0 {
      var rest := Split(s[1..], sep);
      JoinSplit(s[1..], sep);
      assert s == [s[0]] + s[1..];
      if s[0] == sep {
        assert Split(s, sep) == [""] + rest;
        assert ([""] + rest)[1..] == rest;
      } else {
        JoinExtendFirst(s[0], rest, sep);
      }
    }
  }

  /** Text free of the separator splits into itself alone. */
  lemma {:induction false} SplitNoSeparator(a: string, sep: char)
    requires sep !in a
    ensures Split(a, sep) == [a]
  {
    if |a| > 0 {
      SplitNoSeparator(a[1..], sep);
      assert a == [a[0]] + a[1..];
    }
  }

  /** Splitting `a + sep + b`, where `a` is free of the separator, yields `a` and then the pieces of `b`. */
  lemma {:induction false} SplitAfterPiece(a: string, sep: char, b: string)
    requires sep !in a
    ensures Split(a + [sep] + b, sep) == [a] + Split(b, sep)
  {
    var s := a + [sep] + b;
    if |a| == 0 {
      assert s == [sep] + b;
      assert s[1..] == b;
    } else {
      SplitAfterPiece(a[1..], sep, b);
      assert s[0] == a[0];
      assert s[1..] == a[1..] + [sep] + b;
      assert [a[0]] + a[1..] == a;
    }
  }

  /** A leading separator opens an empty piece. */
  lemma SplitConsSeparator(t: string, sep: char)
    ensures Split([sep] + t, sep) == [""] + Split(t, sep)
  {
    assert ([sep] + t)[1..] == t;
  }

  /** Any other leading character extends the first piece. */
  lemma SplitConsOther(c: char, t: string, sep: char)
    requires c != sep
    ensures Split([c] + t, sep) == [[c] + Split(t, sep)[0]] + Split(t, sep)[1..]
  {
    assert ([c] + t)[1..] == t;
  }

  /** Prefixing the first piece of `left + right` with `c` is prefixing the first piece of `left`. */
  lemma ExtendFirstPiece(c: char, left: seq<string>, right: seq<string>)
    requires |left| >= 1
    ensures [[c] + (left + right)[0]] + (left + right)[1..] == ([[c] + left[0]] + left[1..]) + right
  {
    assert (left + right)[1..] == left[1..] + right;
  }

  /**
   Splitting at one occurrence of the separator: the pieces of `a + sep + b`
   are those of `a` followed by those of `b`, whatever `a` and `b` hold.
   */
  lemma {:induction false} SplitConcat(a: string, sep: char, b: string)
    ensures Split(a + [sep] + b, sep) == Split(a, sep) + Split(b, sep)
  {
    if |a| == 0 {
      assert a + [sep] + b == [sep] + b;
      SplitConsSeparator(b, sep);
    } else {
      var t := a[1..];
      SplitConcat(t, sep, b);
      assert a + [sep] + b == [a[0]] + (t + [sep] + b);
      assert [a[0]] + t == a;
      SplitConcatStep(a[0], t + [sep] + b, t, sep, Split(b, sep));
    }
  }

  /**
   The induction step of `SplitConcat`: when `u` splits into the pieces of
   `t` followed by `more`, one character in front of both keeps it so.
   */
  lemma SplitConcatStep(c: char, u: string, t: string, sep: char, more: seq<string>)
    requires Split(u, sep) == Split(t, sep) + more
    ensures Split([c] + u, sep) == Split([c] + t, sep) + more
  {
    if c == sep {
      SplitConsSeparator(u, sep);
      SplitConsSeparator(t, sep);
      assert [""] + (Split(t, sep) + more) == ([""] + Split(t, sep)) + more;
    } else {
      SplitConsOther(c, u, sep);
      SplitConsOther(c, t, sep);
      ExtendFirstPiece(c, Split(t, sep), more);
    }
  }

  /** Splitting a join of separator-free pieces gives the pieces back. */
  lemma {:induction false} SplitJoin(parts: seq<string>, sep: char)
    requires |parts| >= 1
    requires forall i :: 0 <= i < |parts| ==> sep !in parts[i]
    ensures Split(Join(parts, sep), sep) == parts
    decreases |parts|
  {
    if |parts| == 1 {
      SplitNoSeparator(parts[0], sep);
    } else {
      SplitJoin(parts[1..], sep);
      SplitAfterPiece(parts[0], sep, Join(parts[1..], sep));
      assert [parts[0]] + parts[1..] == parts;
    }
  }

  /** Joining a word in front of at least one more word puts one separator between them. */
  lemma JoinCons(word: string, rest: seq<string>, sep: char)
    requires |rest| >= 1
    ensures Join([word] + rest, sep) == word + [sep] + Join(rest, sep)
  {
    assert ([word] + rest)[1..] == rest;
  }

  /** Joining two words in front of at least one more word. */
  lemma JoinPair(w: string, p: string, rest: seq<string>, sep: char)
    requires |rest| >= 1
    ensures Join([w, p] + rest, sep) == w + [sep] + p + [sep] + Join(rest, sep)
  {
    var j := Join(rest, sep);
    PairCons(w, p, rest);
    JoinCons(p, rest, sep);
    JoinCons(w, [p] + rest, sep);
    Reassociate(w, p, j, sep);
  }

  /** One regrouping step of `JoinPair`, kept apart because the solver runs out of resource when the steps share one proof */
  lemma PairCons(w: string, p: string, rest: seq<string>)
    ensures [w, p] + rest == [w] + ([p] + rest)
  {
  }

  /** One regrouping step of `JoinPair`, kept apart because the solver runs out of resource when the steps share one proof */
  lemma Reassociate(w: string, p: string, j: string, sep: char)
    ensures w + [sep] + (p + [sep] + j) == w + [sep] + p + [sep] + j
  {
  }

  /** `s.endswith(suffix)`: the last `|suffix|` characters of `s` are those of `suffix`, one by one. */
  predicate EndsWith(s: string, suffix: string)
    ensures EndsWith(s, suffix) <==>
      |suffix| <= |s| && forall i :: 0 <= i < |suffix| ==> s[|s| - |suffix| + i] == suffix[i]
  {
    |suffix| <= |s| && s[|s| - |suffix|..] == suffix
  }

  /** Text built as `head + middle + tail` starts with `head` and ends with `tail`. */
  lemma FramedBy(head: string, middle: string, tail: string)
    ensures var s := head + middle + tail;
      |head| <= |s| && s[..|head|] == head && EndsWith(s, tail)
  {
    var s := head + middle + tail;
    assert s[|s| - |tail|..] == tail;
  }

  function LowerChar(c: char): char
  {
    if 'A' <= c <= 'Z' then (c as int + 32) as char else c
  }

  /** `s.lower()` restricted to ASCII letters; every other character is kept. */
  function AsciiLower(s: string): (r: string)
    ensures |r| == |s|
    ensures forall i :: 0 <= i < |s| ==> r[i] == LowerChar(s[i])
  {
    seq(|s|, i requires 0 <= i < |s| => LowerChar(s[i]))
  }
}
