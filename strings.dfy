/** The parts of Go's `strings` package the core relies on: HasPrefix, Split on a
    one-character separator, Join, and the character substitution that
    Join(Split(s, c), r) performs. */
module Strings {

  /** Number of occurrences of `c` in `s`. */
  function Count(s: string, c: char): (n: nat)
    ensures n == 0 <==> c !in s
    ensures n <= |s|
  {
    if s == [] then 0 else (if s[0] == c then 1 else 0) + Count(s[1..], c)
  }

  /** strings.HasPrefix: `s` is `prefix` followed by the rest of `s`. */
  predicate HasPrefix(s: string, prefix: string): (r: bool)
    ensures r <==> |prefix| <= |s| && s == prefix + s[|prefix|..]
  {
    |prefix| <= |s| && s[..|prefix|] == prefix
  }

  /** strings.Split(s, string(sep)): the maximal pieces of `s` between
      occurrences of `sep`; the empty string splits into one empty field. */
  function Split(s: string, sep: char): (fields: seq<string>)
    ensures |fields| == Count(s, sep) + 1
    ensures forall i :: 0 <= i < |fields| ==> sep !in fields[i]
  {
    if s == [] then [""]
    else
      var rest := Split(s[1..], sep);
      if s[0] == sep then [""] + rest
      else [[s[0]] + rest[0]] + rest[1..]
  }

  /** The total length of a list of strings. */
  function TotalLength(parts: seq<string>): nat {
    if parts == [] then 0 else |parts[0]| + TotalLength(parts[1..])
  }

  /** strings.Join(parts, sep): the parts in order with one `sep` between
      neighbours, so its length is theirs plus one `sep` per gap. */
  function Join(parts: seq<string>, sep: string): (r: string)
    ensures |parts| > 0 ==> |r| == TotalLength(parts) + (|parts| - 1) * |sep|
  {
    if |parts| == 0 then ""
    else if |parts| == 1 then parts[0]
    else parts[0] + sep + Join(parts[1..], sep)
  }

  /** `s` with every occurrence of the character `c` replaced by `r`. */
  function Substitute(s: string, c: char, r: string): (t: string)
    ensures c !in r ==> c !in t
  {
    if s == [] then [] else (if s[0] == c then r else [s[0]]) + Substitute(s[1..], c, r)
  }

  /** Joining the fields of a split with `r` substitutes `r` for the separator. */
  lemma {:induction false} JoinSplit(s: string, c: char, r: string)
    ensures Join(Split(s, c), r) == Substitute(s, c, r)
  {
    if s != [] {
      JoinSplit(s[1..], c, r);
      var rest := Split(s[1..], c);
      var tail := Substitute(s[1..], c, r);
      assert Join(rest, r) == tail;
      if s[0] == c {
        var fields := [""] + rest;
        assert Split(s, c) == fields;
        assert fields[0] == "" && fields[1..] == rest;
        assert Join(fields, r) == "" + r + Join(rest, r);
        assert Substitute(s, c, r) == r + tail;
      } else {
        var fields := [[s[0]] + rest[0]] + rest[1..];
        assert Split(s, c) == fields;
        assert Substitute(s, c, r) == [s[0]] + tail;
        if |rest| == 1 {
          assert Join(fields, r) == [s[0]] + rest[0];
        } else {
          assert fields[1..] == rest[1..];
          assert Join(fields, r) == [s[0]] + rest[0] + r + Join(rest[1..], r);
          assert Join(rest, r) == rest[0] + r + Join(rest[1..], r);
        }
      }
    }
  }

  /** Substituting a character by itself changes nothing. */
  lemma {:induction false} SubstituteSelf(s: string, c: char)
    ensures Substitute(s, c, [c]) == s
  {
    if s != [] {
      SubstituteSelf(s[1..], c);
      assert s == [s[0]] + s[1..];
    }
  }

  /** A separator-free first field is split off whatever follows. */
  lemma {:induction false} SplitCons(a: string, t: string, c: char)
    requires c !in a
    ensures Split(a + [c] + t, c) == [a] + Split(t, c)
  {
    if a == [] {
      var s := [c] + t;
      assert a + [c] + t == s && s[0] == c && s[1..] == t;
    } else {
      var s := a + [c] + t;
      var tail := a[1..] + [c] + t;
      assert s[0] == a[0] && s[1..] == tail;
      SplitCons(a[1..], t, c);
      var rest := Split(tail, c);
      assert rest[0] == a[1..] && rest[1..] == Split(t, c);
      assert [a[0]] + a[1..] == a;
    }
  }

  /** Split undoes Join: a non-empty list of separator-free strings joined
      with the separator splits back into exactly that list. */
  lemma {:induction false} SplitJoin(parts: seq<string>, c: char)
    requires |parts| > 0
    requires forall i :: 0 <= i < |parts| ==> c !in parts[i]
    ensures Split(Join(parts, [c]), c) == parts
  {
    if |parts| == 1 {
      SplitSeparatorFree(parts[0], c);
    } else {
      SplitJoin(parts[1..], c);
      SplitCons(parts[0], Join(parts[1..], [c]), c);
      assert [parts[0]] + parts[1..] == parts;
    }
  }

  /** Split undoes the joining of two separator-free pieces. */
  lemma {:induction false} SplitPair(a: string, b: string, c: char)
    requires c !in a && c !in b
    ensures Split(a + [c] + b, c) == [a, b]
  {
    var s := a + [c] + b;
    if a == [] {
      assert s[0] == c && s[1..] == b;
      SplitSeparatorFree(b, c);
    } else {
      assert s[0] == a[0] && s[0] != c;
      assert s[1..] == a[1..] + [c] + b;
      SplitPair(a[1..], b, c);
      assert [a[0]] + a[1..] == a;
    }
  }

  /** A string without the separator splits into itself alone. */
  lemma SplitSeparatorFree(s: string, c: char)
    requires c !in s
    ensures Split(s, c) == [s]
  {
    var fields := Split(s, c);
    assert |fields| == 1;
    JoinSplit(s, c, [c]);
    SubstituteSelf(s, c);
  }

  /** Two fields rejoined with the separator give back the split string. */
  lemma SplitInTwo(s: string, c: char)
    requires |Split(s, c)| == 2
    ensures s == Split(s, c)[0] + [c] + Split(s, c)[1]
  {
    var fields := Split(s, c);
    JoinSplit(s, c, [c]);
    SubstituteSelf(s, c);
    assert fields[1..] == [fields[1]];
  }
}
