/** The JavaScript string operations the article repository relies on:
    `String.prototype.split` with a one-character separator,
    `Array.prototype.join`, and the substring test behind `LIKE '%t%'`. */
module Strings {

  /** `s.split(c)`: the pieces of `s` between occurrences of `c`. There is
      always at least one piece (`"".split(c)` is `[""]`). */
  function Split(s: string, c: char): (parts: seq<string>)
    ensures |parts| >= 1
    ensures forall i :: 0 <= i < |parts| ==> c !in parts[i]
  {
    if s == [] then [""]
    else
      var rest := Split(s[1..], c);
      if s[0] == c then [""] + rest
      else [[s[0]] + rest[0]] + rest[1..]
  }

  /** `parts.join(sep)`. */
  function Join(parts: seq<string>, sep: string): string {
    if parts == [] then ""
    else if |parts| == 1 then parts[0]
    else parts[0] + sep + Join(parts[1..], sep)
  }

  /** Every occurrence of `c` in `s` replaced by the string `rep`. */
  function Substitute(s: string, c: char, rep: string): string {
    if s == [] then ""
    else (if s[0] == c then rep else [s[0]]) + Substitute(s[1..], c, rep)
  }

  /** `t` occurs in `s` as a contiguous substring. */
  predicate Contains(s: string, t: string) {
    t <= s || (s != [] && Contains(s[1..], t))
  }

  /** Gluing a prefix onto the first piece glues it onto the joined string. */
  lemma JoinPrefix(x: string, parts: seq<string>, sep: string)
    requires |parts| >= 1
    ensures Join([x + parts[0]] + parts[1..], sep) == x + Join(parts, sep)
  {
    var glued := [x + parts[0]] + parts[1..];
    assert glued[0] == x + parts[0] && glued[1..] == parts[1..];
    if |parts| > 1 {
      assert (x + parts[0]) + sep + Join(parts[1..], sep) == x + (parts[0] + sep + Join(parts[1..], sep));
    }
  }

  /** `s.split(c).join(rep)` replaces every `c` in `s` by `rep`. */
  lemma {:induction false} SplitJoin(s: string, c: char, rep: string)
    ensures Join(Split(s, c), rep) == Substitute(s, c, rep)
  {
    if s != [] {
      var rest := Split(s[1..], c);
      SplitJoin(s[1..], c, rep);
      if s[0] == c {
        var parts := [""] + rest;
        assert parts[0] == "" && parts[1..] == rest && |parts| > 1;
      } else {
        JoinPrefix([s[0]], rest, rep);
      }
    }
  }

  /** Splitting a string that holds no separator gives the string itself. */
  lemma {:induction false} SplitWithout(s: string, c: char)
    requires c !in s
    ensures Split(s, c) == [s]
  {
    if s != [] {
      assert c !in s[1..];
      SplitWithout(s[1..], c);
      assert [s[0]] + s[1..] == s;
    }
  }

  /** Splitting at a separator that follows a separator-free prefix. */
  lemma {:induction false} SplitAfter(x: string, c: char, y: string)
    requires c !in x
    ensures Split(x + [c] + y, c) == [x] + Split(y, c)
  {
    if x == [] {
      assert x + [c] + y == [c] + y;
      assert ([c] + y)[1..] == y;
    } else {
      var s := x + [c] + y;
      assert s[0] == x[0] && s[1..] == x[1..] + [c] + y;
      assert c !in x[1..];
      SplitAfter(x[1..], c, y);
      assert [x[0]] + x[1..] == x;
    }
  }

  /** Splitting undoes joining with a one-character separator, provided no
      piece contains that character. */
  lemma {:induction false} JoinSplit(parts: seq<string>, c: char)
    requires |parts| >= 1
    requires forall i :: 0 <= i < |parts| ==> c !in parts[i]
    ensures Split(Join(parts, [c]), c) == parts
  {
    if |parts| == 1 {
      SplitWithout(parts[0], c);
    } else {
      JoinSplit(parts[1..], c);
      assert Join(parts, [c]) == parts[0] + [c] + Join(parts[1..], [c]);
      SplitAfter(parts[0], c, Join(parts[1..], [c]));
      assert [parts[0]] + parts[1..] == parts;
    }
  }

  /** Substitution works piece by piece. */
  lemma {:induction false} SubstituteAppend(a: string, b: string, c: char, rep: string)
    ensures Substitute(a + b, c, rep) == Substitute(a, c, rep) + Substitute(b, c, rep)
  {
    if a == [] {
      assert a + b == b;
    } else {
      assert (a + b)[0] == a[0] && (a + b)[1..] == a[1..] + b;
      SubstituteAppend(a[1..], b, c, rep);
    }
  }

  /** Substitution leaves a string without `c` unchanged. */
  lemma {:induction false} SubstituteAbsent(s: string, c: char, rep: string)
    requires c !in s
    ensures Substitute(s, c, rep) == s
  {
    if s != [] {
      assert c !in s[1..];
      SubstituteAbsent(s[1..], c, rep);
      assert [s[0]] + s[1..] == s;
    }
  }

  /** Substitution in two `c`-free pieces separated and ended by single
      characters touches only those two characters. */
  lemma SubstituteBetween(a: string, x: char, b: string, y: char, c: char, rep: string)
    requires c !in a && c !in b
    ensures Substitute(a + [x] + b + [y], c, rep)
         == a + (if x == c then rep else [x]) + b + (if y == c then rep else [y])
  {
    SubstituteAppend(a + [x] + b, [y], c, rep);
    SubstituteAppend(a + [x], b, c, rep);
    SubstituteAppend(a, [x], c, rep);
    SubstituteAbsent(a, c, rep);
    SubstituteAbsent(b, c, rep);
    assert Substitute([x], c, rep) == if x == c then rep else [x];
    assert Substitute([y], c, rep) == if y == c then rep else [y];
  }

  /** After substitution, a character occurs only where it came from `s`
      (other than `c` itself) or from `rep`. */
  lemma {:induction false} SubstituteOccurrences(s: string, c: char, rep: string, d: char)
    ensures d in Substitute(s, c, rep) ==> (d != c && d in s) || d in rep
  {
    if s != [] {
      SubstituteOccurrences(s[1..], c, rep, d);
      var head := if s[0] == c then rep else [s[0]];
      assert Substitute(s, c, rep) == head + Substitute(s[1..], c, rep);
    }
  }
}
