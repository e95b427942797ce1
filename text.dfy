/** Single-character replacement, the one string operation of the TLN
    formatters besides formatting (Python's `str.replace` with
    one-character arguments). Splitting and joining on a separator
    character (`str.split`, `str.join`) and ASCII lower-casing are not used
    by the formatters; they serve to state properties of the descriptions
    and headers. */
module Text {

  /** `s` with every occurrence of `from` replaced by `to`. */
  function ReplaceChar(s: string, from: char, to: char): (r: string)
    ensures |r| == |s|
  {
    if s == [] then []
    else [if s[0] == from then to else s[0]] + ReplaceChar(s[1..], from, to)
  }

  /** Replacement keeps the length, rewrites exactly the `from` characters
      and leaves every other character where it was. */
  lemma {:induction false} ReplaceCharAt(s: string, from: char, to: char)
    ensures |ReplaceChar(s, from, to)| == |s|
    ensures forall i :: 0 <= i < |s| ==>
      ReplaceChar(s, from, to)[i] == (if s[i] == from then to else s[i])
  {
    if s != [] {
      ReplaceCharAt(s[1..], from, to);
      var r := ReplaceChar(s, from, to);
      forall i | 0 <= i < |s|
        ensures r[i] == (if s[i] == from then to else s[i])
      {
        if i > 0 {
          assert r[i] == ReplaceChar(s[1..], from, to)[i - 1];
        }
      }
    }
  }

  /** After replacement no `from` is left (when it is replaced by another
      character). */
  lemma ReplaceCharRemoves(s: string, from: char, to: char)
    requires from != to
    ensures from !in ReplaceChar(s, from, to)
  {
    ReplaceCharAt(s, from, to);
  }

  /** A string in which `from` does not occur is left unchanged. */
  lemma ReplaceCharIdentity(s: string, from: char, to: char)
    requires from !in s
    ensures ReplaceChar(s, from, to) == s
  {
    ReplaceCharAt(s, from, to);
  }

  /** The pieces of `s` between occurrences of `sep`, as Python's
      `s.split(sep)` returns them: `k` separators give `k + 1` pieces, and
      the empty string gives one empty piece. */
  function Split(s: string, sep: char): (parts: seq<string>)
    ensures |parts| >= 1
  {
    if s == [] then [[]]
    else
      var rest := Split(s[1..], sep);
      if s[0] == sep then [[]] + rest
      else [[s[0]] + rest[0]] + rest[1..]
  }

  /** The pieces joined with `sep` between neighbours (`sep.join(parts)`). */
  function Join(parts: seq<string>, sep: char): string
  {
    if parts == [] then []
    else if |parts| == 1 then parts[0]
    else parts[0] + [sep] + Join(parts[1..], sep)
  }

  /** Joining a piece in front of a non-empty list puts one separator
      between it and the rest. */
  lemma JoinCons(p: string, rest: seq<string>, sep: char)
    requires rest != []
    ensures Join([p] + rest, sep) == p + [sep] + Join(rest, sep)
  {
    assert ([p] + rest)[1..] == rest;
  }

  /** Joining two non-empty lists is joining each and putting one separator
      between the results. */
  lemma {:induction false} JoinAppend(a: seq<string>, b: seq<string>, sep: char)
    requires a != [] && b != []
    ensures Join(a + b, sep) == Join(a, sep) + [sep] + Join(b, sep)
  {
    if |a| == 1 {
      JoinCons(a[0], b, sep);
      assert a + b == [a[0]] + b;
    } else {
      JoinAppend(a[1..], b, sep);
      assert a + b == [a[0]] + (a[1..] + b);
      JoinCons(a[0], a[1..] + b, sep);
    }
  }

  /** Joining five pieces, spelled out. */
  lemma JoinFive(a: string, b: string, c: string, e: string, f: string, d: char)
    ensures Join([a, b, c, e, f], d) == a + [d] + (b + [d] + (c + [d] + (e + [d] + f)))
  {
    JoinCons(e, [f], d);
    assert [e] + [f] == [e, f];
    JoinCons(c, [e, f], d);
    assert [c] + [e, f] == [c, e, f];
    JoinCons(b, [c, e, f], d);
    assert [b] + [c, e, f] == [b, c, e, f];
    JoinCons(a, [b, c, e, f], d);
    assert [a] + [b, c, e, f] == [a, b, c, e, f];
  }

  /** A piece without the separator is one field. */
  lemma {:induction false} SplitNoSeparator(p: string, sep: char)
    requires sep !in p
    ensures Split(p, sep) == [p]
  {
    if p != [] {
      SplitNoSeparator(p[1..], sep);
      assert [p[0]] + p[1..] == p;
    }
  }

  /** A separator-free prefix followed by the separator splits off as the
      first piece. */
  lemma {:induction false} SplitPrefix(p: string, sep: char, t: string)
    requires sep !in p
    ensures Split(p + [sep] + t, sep) == [p] + Split(t, sep)
  {
    if p == [] {
      assert p + [sep] + t == [sep] + t;
      assert ([sep] + t)[1..] == t;
    } else {
      SplitPrefix(p[1..], sep, t);
      assert (p + [sep] + t)[1..] == p[1..] + [sep] + t;
      assert [p[0]] + p[1..] == p;
    }
  }

  /** Splitting undoes joining when no piece contains the separator. */
  lemma {:induction false} SplitJoin(parts: seq<string>, sep: char)
    requires |parts| >= 1
    requires forall p <- parts :: sep !in p
    ensures Split(Join(parts, sep), sep) == parts
  {
    if |parts| == 1 {
      SplitNoSeparator(parts[0], sep);
    } else {
      SplitJoin(parts[1..], sep);
      SplitPrefix(parts[0], sep, Join(parts[1..], sep));
      assert [parts[0]] + parts[1..] == parts;
    }
  }

  /** ASCII lower-casing of one character. */
  function LowerChar(c: char): (r: char)
    ensures 'A' <= c <= 'Z' ==> 'a' <= r <= 'z' && r as int - c as int == 32
    ensures !('A' <= c <= 'Z') ==> r == c
  {
    if 'A' <= c <= 'Z' then (c as int + 32) as char else c
  }

  /** ASCII lower-casing of a string. */
  function Lower(s: string): (r: string)
    ensures |r| == |s|
    ensures forall i :: 0 <= i < |s| ==> r[i] == LowerChar(s[i])
  {
    seq(|s|, i requires 0 <= i < |s| => LowerChar(s[i]))
  }
}
