/**
 * The two Python string builtins the graph builder relies on:
 * `str.split(sep)` with an explicit one-character separator and `str.strip()`
 * with no argument (which removes the characters for which `str.isspace()` holds).
 */
module PyStr {

  /** The characters Python's `str.isspace()` accepts. */
  predicate IsSpace(c: char) {
    || '\t' <= c <= '\r'                      // tab, line feed, vertical tab, form feed, carriage return
    || '\U{1C}' <= c <= ' '                    // the four information separators and space
    || c == '\U{85}' || c == '\U{A0}' || c == '\U{1680}'
    || '\U{2000}' <= c <= '\U{200A}'
    || c == '\U{2028}' || c == '\U{2029}' || c == '\U{202F}' || c == '\U{205F}' || c == '\U{3000}'
  }

  /** Every character of `s` is whitespace. */
  ghost predicate AllSpace(s: string) {
    forall k :: 0 <= k < |s| ==> IsSpace(s[k])
  }

  /** How many characters at the front of `s` are whitespace: the index where stripping starts. */
  function Leading(s: string): (n: nat)
    ensures n <= |s| && forall k :: 0 <= k < n ==> IsSpace(s[k])
    ensures n == |s| || !IsSpace(s[n])
  {
    if s != [] && IsSpace(s[0]) then 1 + Leading(s[1..]) else 0
  }

  /** How many characters at the back of `s` are whitespace: the count stripping drops at the end. */
  function Trailing(s: string): (n: nat)
    ensures n <= |s| && forall k :: |s| - n <= k < |s| ==> IsSpace(s[k])
    ensures n == |s| || !IsSpace(s[|s| - n - 1])
  {
    if s != [] && IsSpace(s[|s| - 1]) then 1 + Trailing(s[..|s| - 1]) else 0
  }

  /** Removes leading whitespace: the result is a suffix of `s` preceded only by whitespace. */
  function LStrip(s: string): (r: string)
    ensures |r| <= |s| && r == s[|s| - |r|..]
    ensures forall k :: 0 <= k < |s| - |r| ==> IsSpace(s[k])
    ensures r == [] || !IsSpace(r[0])
  {
    s[Leading(s)..]
  }

  /** Removes trailing whitespace: the result is a prefix of `s` followed only by whitespace. */
  function RStrip(s: string): (r: string)
    ensures |r| <= |s| && r == s[..|r|]
    ensures forall k :: |r| <= k < |s| ==> IsSpace(s[k])
    ensures r == [] || !IsSpace(r[|r| - 1])
  {
    s[..|s| - Trailing(s)]
  }

  /** `s.strip()`: neither end of the result is whitespace. */
  function Strip(s: string): (r: string)
    ensures |r| <= |s|
    ensures r == [] || (!IsSpace(r[0]) && !IsSpace(r[|r| - 1]))
  {
    RStrip(LStrip(s))
  }

  /** What `Strip` removed is whitespace on both sides: `s == whitespace + Strip(s) + whitespace`. */
  lemma StripIsInfix(s: string)
    ensures var i := |s| - |LStrip(s)|;
            i + |Strip(s)| <= |s| && s[i..i + |Strip(s)|] == Strip(s)
            && AllSpace(s[..i]) && AllSpace(s[i + |Strip(s)|..])
  {
    var i := Leading(s);
    var l := s[i..];
    var j := |l| - Trailing(l);
    assert s[i..i + j] == l[..j];
    assert s[i + j..] == l[j..];
  }

  lemma {:induction false} LeadingPadded(a: string, r: string)
    requires AllSpace(a)
    requires r == [] || !IsSpace(r[0])
    ensures Leading(a + r) == |a|
    decreases |a|
  {
    if a != [] {
      assert (a + r)[1..] == a[1..] + r;
      LeadingPadded(a[1..], r);
    }
  }

  lemma {:induction false} TrailingPadded(r: string, b: string)
    requires AllSpace(b)
    requires r == [] || !IsSpace(r[|r| - 1])
    ensures Trailing(r + b) == |b|
    decreases |b|
  {
    if b != [] {
      assert (r + b)[..|r + b| - 1] == r + b[..|b| - 1];
      TrailingPadded(r, b[..|b| - 1]);
    }
  }

  lemma LStripPadded(a: string, r: string)
    requires AllSpace(a)
    requires r == [] || !IsSpace(r[0])
    ensures LStrip(a + r) == r
  {
    LeadingPadded(a, r);
    assert (a + r)[|a|..] == r;
  }

  lemma RStripPadded(r: string, b: string)
    requires AllSpace(b)
    requires r == [] || !IsSpace(r[|r| - 1])
    ensures RStrip(r + b) == r
  {
    TrailingPadded(r, b);
    assert (r + b)[..|r|] == r;
  }

  /** Stripping removes exactly the surrounding whitespace and nothing else. */
  lemma StripPadded(a: string, r: string, b: string)
    requires AllSpace(a) && AllSpace(b)
    requires r == [] || (!IsSpace(r[0]) && !IsSpace(r[|r| - 1]))
    ensures Strip(a + r + b) == r
  {
    if r == [] {
      assert a + r + b == a + b;
      assert AllSpace(a + b);
      LStripPadded(a + b, []);
      assert a + b + [] == a + b;
    } else {
      assert a + r + b == a + (r + b);
      LStripPadded(a, r + b);
      RStripPadded(r, b);
    }
  }

  /** A string with no whitespace at either end strips to itself. */
  lemma StripUnpadded(r: string)
    requires r == [] || (!IsSpace(r[0]) && !IsSpace(r[|r| - 1]))
    ensures Strip(r) == r
  {
    assert LStrip(r) == r;
  }

  /** Stripping twice is stripping once. */
  lemma StripIdempotent(s: string)
    ensures Strip(Strip(s)) == Strip(s)
  {
    StripUnpadded(Strip(s));
  }

  /** `s.split(sep)`: always at least one piece, and no piece holds the separator. */
  function Split(s: string, sep: char): (r: seq<string>)
    ensures |r| >= 1
    ensures forall k :: 0 <= k < |r| ==> sep !in r[k]
  {
    if s == [] then [[]]
    else
      var rest := Split(s[1..], sep);
      if s[0] == sep then [[]] + rest
      else [[s[0]] + rest[0]] + rest[1..]
  }

  /** A string without the separator is a single piece. */
  lemma {:induction false} SplitNoSep(s: string, sep: char)
    requires sep !in s
    ensures Split(s, sep) == [s]
  {
    if s != [] {
      assert sep !in s[1..] by { assert forall x :: x in s[1..] ==> x in s; }
      SplitNoSep(s[1..], sep);
      assert s[0] != sep by { assert s[0] in s; }
      assert [s[0]] + s[1..] == s;
    }
  }

  /** `sep.join(pieces)`, the inverse of `Split`. */
  function Join(pieces: seq<string>, sep: char): string
  {
    if pieces == [] then []
    else if |pieces| == 1 then pieces[0]
    else pieces[0] + [sep] + Join(pieces[1..], sep)
  }

  /** Splitting loses nothing: joining the pieces gives back the cell text. */
  lemma {:induction false} JoinSplit(s: string, sep: char)
    ensures Join(Split(s, sep), sep) == s
  {
    if s != [] {
      var rest := Split(s[1..], sep);
      JoinSplit(s[1..], sep);
      if s[0] == sep {
        assert ([[]] + rest)[1..] == rest;
      } else {
        var r := Split(s, sep);
        assert r[1..] == rest[1..];
        if |rest| == 1 {
          assert r == [[s[0]] + rest[0]];
        } else {
          assert rest == [rest[0]] + rest[1..];
          assert Join(rest, sep) == rest[0] + [sep] + Join(rest[1..], sep);
        }
      }
    }
  }

  /** Splitting the joined pieces gives back exactly those pieces. */
  lemma {:induction false} SplitJoin(pieces: seq<string>, sep: char)
    requires |pieces| >= 1
    requires forall k :: 0 <= k < |pieces| ==> sep !in pieces[k]
    ensures Split(Join(pieces, sep), sep) == pieces
    decreases |pieces|, |pieces[0]|
  {
    var p := pieces[0];
    if p == [] {
      if |pieces| > 1 {
        var tail := Join(pieces[1..], sep);
        assert Join(pieces, sep) == [sep] + tail;
        assert ([sep] + tail)[1..] == tail;
        SplitJoin(pieces[1..], sep);
        assert pieces == [[]] + pieces[1..];
      }
    } else {
      var shorter := [p[1..]] + pieces[1..];
      assert shorter[1..] == pieces[1..];
      assert forall k :: 0 <= k < |shorter| ==> sep !in shorter[k] by {
        forall k | 0 <= k < |shorter| ensures sep !in shorter[k] {
          if k == 0 {
            assert forall x :: x in p[1..] ==> x in p;
          } else {
            assert shorter[k] == pieces[k];
          }
        }
      }
      SplitJoin(shorter, sep);
      var s := Join(pieces, sep);
      assert p[0] != sep by { assert p[0] in p; }
      if |pieces| == 1 {
        assert s == p && s[1..] == Join(shorter, sep);
      } else {
        assert s == p + [sep] + Join(pieces[1..], sep);
        assert Join(shorter, sep) == p[1..] + [sep] + Join(pieces[1..], sep);
        assert s[1..] == Join(shorter, sep);
      }
      assert s[0] == p[0];
      assert [p[0]] + p[1..] == p;
      assert pieces == [p] + pieces[1..];
    }
  }
}
