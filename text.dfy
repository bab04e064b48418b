/** The Python `str` operations the scraper relies on: `strip()`, `startswith`,
    the `in` substring test and `splitlines()`, together with the text that
    appending one line per identifier produces. */
module Text {

  /** The code points Python's `str.isspace` accepts, which `str.strip()`
      removes from both ends. */
  predicate IsSpace(c: char)
  {
    var n := c as int;
    (0x09 <= n <= 0x0D) || (0x1C <= n <= 0x20) || n == 0x85 || n == 0xA0 || n == 0x1680
    || (0x2000 <= n <= 0x200A) || n == 0x2028 || n == 0x2029 || n == 0x202F || n == 0x205F
    || n == 0x3000
  }

  ghost predicate AllSpace(s: string)
  {
    forall i :: 0 <= i < |s| ==> IsSpace(s[i])
  }

  /** `s.lstrip()`: drops leading whitespace. */
  function TrimStart(s: string): string
  {
    if s != [] && IsSpace(s[0]) then TrimStart(s[1..]) else s
  }

  /** `s.rstrip()`: drops trailing whitespace. */
  function TrimEnd(s: string): string
  {
    if s != [] && IsSpace(s[|s| - 1]) then TrimEnd(s[..|s| - 1]) else s
  }

  /** `s.strip()`: drops leading and trailing whitespace. */
  function Strip(s: string): string
  {
    TrimEnd(TrimStart(s))
  }

  /** `lstrip` leaves the suffix that follows the leading whitespace. */
  lemma {:induction false} TrimStartSpec(s: string)
    ensures |TrimStart(s)| <= |s| && TrimStart(s) == s[|s| - |TrimStart(s)|..]
    ensures AllSpace(s[..|s| - |TrimStart(s)|])
    ensures TrimStart(s) == [] || !IsSpace(TrimStart(s)[0])
  {
    if s != [] && IsSpace(s[0]) {
      var r := TrimStart(s[1..]);
      TrimStartSpec(s[1..]);
      assert s[..|s| - |r|] == [s[0]] + s[1..][..|s| - 1 - |r|];
    }
  }

  /** `rstrip` leaves the prefix that precedes the trailing whitespace. */
  lemma {:induction false} TrimEndSpec(s: string)
    ensures |TrimEnd(s)| <= |s| && TrimEnd(s) == s[..|TrimEnd(s)|]
    ensures AllSpace(s[|TrimEnd(s)|..])
    ensures TrimEnd(s) == [] || !IsSpace(TrimEnd(s)[|TrimEnd(s)| - 1])
  {
    if s != [] && IsSpace(s[|s| - 1]) {
      var r := TrimEnd(s[..|s| - 1]);
      TrimEndSpec(s[..|s| - 1]);
      assert s[|r|..] == s[..|s| - 1][|r|..] + [s[|s| - 1]];
    }
  }

  /** `strip` leaves the slice of `s` between its leading and its trailing
      whitespace, and that slice neither starts nor ends with whitespace. */
  lemma StripSpec(s: string)
    ensures var r := Strip(s);
            && (r == [] || (!IsSpace(r[0]) && !IsSpace(r[|r| - 1])))
            && exists a :: 0 <= a <= |s| - |r| && r == s[a..a + |r|]
                           && AllSpace(s[..a]) && AllSpace(s[a + |r|..])
  {
    var t := TrimStart(s);
    var r := TrimEnd(t);
    TrimStartSpec(s);
    TrimEndSpec(t);
    var a := |s| - |t|;
    assert r == s[a..a + |r|];
    assert s[a + |r|..] == t[|r|..];
  }

  /** Python's `s.startswith(prefix)`. */
  predicate StartsWith(s: string, prefix: string)
  {
    prefix <= s
  }

  /** `sub` occurs in `s` starting at index `i`. */
  ghost predicate OccursAt(s: string, sub: string, i: int)
  {
    0 <= i && i + |sub| <= |s| && s[i..i + |sub|] == sub
  }

  /** Python's `sub in s` for strings: `sub` occurs somewhere in `s`. */
  function Contains(s: string, sub: string): (b: bool)
    ensures b <==> exists i :: OccursAt(s, sub, i)
    decreases |s|
  {
    if |s| < |sub| then
      false
    else if s[..|sub|] == sub then
      assert OccursAt(s, sub, 0);
      true
    else
      var b := Contains(s[1..], sub);
      assert b ==> exists i :: OccursAt(s, sub, i) by {
        if b {
          var j :| OccursAt(s[1..], sub, j);
          assert s[1..][j..j + |sub|] == s[j + 1..j + 1 + |sub|];
          assert OccursAt(s, sub, j + 1);
        }
      }
      assert (exists i :: OccursAt(s, sub, i)) ==> b by {
        if exists i :: OccursAt(s, sub, i) {
          var i :| OccursAt(s, sub, i);
          assert i != 0;
          assert s[1..][i - 1..i - 1 + |sub|] == s[i..i + |sub|];
          assert OccursAt(s[1..], sub, i - 1);
        }
      }
      b
  }

  predicate NoBreak(s: string)
  {
    '\n' !in s
  }

  /** `s` is empty or ends with a line break, so that text appended to it
      starts a new line. */
  predicate Terminated(s: string)
  {
    s == [] || s[|s| - 1] == '\n'
  }

  /** The index of the first line break in `s`, or `|s|` when there is none. */
  function LineEnd(s: string): (k: nat)
    ensures k <= |s| && NoBreak(s[..k])
    ensures k < |s| ==> s[k] == '\n'
  {
    if s == [] || s[0] == '\n' then
      0
    else
      var k := LineEnd(s[1..]);
      assert s[..k + 1] == [s[0]] + s[1..][..k];
      k + 1
  }

  /** Python's `s.splitlines()` for text whose only line separator is
      '\n': the pieces between line breaks, without a final empty piece. */
  function Lines(s: string): seq<string>
    decreases |s|
  {
    if s == [] then
      []
    else
      var k := LineEnd(s);
      if k == |s| then
        assert s[..k] == s;
        [s]
      else
        [s[..k]] + Lines(s[k + 1..])
  }

  /** The text written by appending `l + "\n"` for every `l` of `ls` in turn. */
  function Unlines(ls: seq<string>): (s: string)
  {
    if ls == [] then [] else Unlines(ls[..|ls| - 1]) + ls[|ls| - 1] + "\n"
  }

  /** Text written one line per element always ends with a line break. */
  lemma UnlinesTerminated(ls: seq<string>)
    ensures Terminated(Unlines(ls))
    ensures ls != [] ==> |Unlines(ls)| > 0
  {
  }

  /** `x` is the line of `s` that starts at index `i`: `i` is the start of
      the text or follows a line break, `x` holds no line break and is
      followed by one or by the end of the text, and a line starts before the
      end of the text. */
  ghost predicate LineAt(s: string, x: string, i: int)
  {
    0 <= i < |s| && (i == 0 || s[i - 1] == '\n')
    && i + |x| <= |s| && NoBreak(x) && s[i..i + |x|] == x
    && (i + |x| == |s| || s[i + |x|] == '\n')
  }

  /** A line break-free prefix followed by a break or the end is found by
      LineEnd. */
  lemma LineEndUnique(s: string, k: nat)
    requires k <= |s| && NoBreak(s[..k]) && (k < |s| ==> s[k] == '\n')
    ensures LineEnd(s) == k
  {
    var j := LineEnd(s);
    if j < k {
      assert false;
    } else if k < j {
      assert false;
    }
  }

  /** The line that starts at index 0 is the text up to the first break. */
  lemma LineAtStart(s: string, x: string)
    requires s != []
    ensures LineAt(s, x, 0) <==> x == s[..LineEnd(s)]
  {
    var k := LineEnd(s);
    if LineAt(s, x, 0) {
      if |x| < k {
        assert false;
      } else if |x| > k {
        assert false;
      }
    }
  }

  /** Every line after the first starts past the first line break. */
  lemma LineAtPastFirstBreak(s: string, x: string, i: int)
    requires LineAt(s, x, i) && i > 0
    ensures LineEnd(s) < i
  {
    var k := LineEnd(s);
    if i - 1 < k {
      assert false;
    }
  }

  /** The lines of the text after a line break at index `k` are the lines of
      the whole text that start past `k`, shifted by `k + 1`. */
  lemma LineAtShift(s: string, k: nat, x: string, j: int)
    requires k < |s| && s[k] == '\n'
    requires 0 <= j
    ensures LineAt(s[k + 1..], x, j) <==> LineAt(s, x, j + k + 1)
  {
    var t := s[k + 1..];
    var i := j + k + 1;
    if 0 <= j && j + |x| <= |t| {
      assert s[i..i + |x|] == t[j..j + |x|];
      if j > 0 {
        assert s[i - 1] == t[j - 1];
      }
      if j + |x| < |t| {
        assert s[i + |x|] == t[j + |x|];
      }
    }
  }

  /** Text without a line break has itself as its one line. */
  lemma LineAtUnbroken(s: string, x: string)
    requires s != [] && LineEnd(s) == |s|
    ensures (exists i :: LineAt(s, x, i)) <==> x == s
  {
    LineAtStart(s, x);
    assert s[..|s|] == s;
    if exists i :: LineAt(s, x, i) {
      var i :| LineAt(s, x, i);
      if i > 0 {
        LineAtPastFirstBreak(s, x, i);
      }
    }
  }

  /** A line of text with a line break at `k`, the first one, is the text
      before that break or a line of the text `t` after it. */
  lemma LineAtCases(s: string, k: nat, t: string, x: string, i: int)
    requires LineEnd(s) == k < |s| && t == s[k + 1..]
    requires LineAt(s, x, i)
    ensures x == s[..k] || LineAt(t, x, i - k - 1)
  {
    if i == 0 {
      LineAtStart(s, x);
    } else {
      LineAtPastFirstBreak(s, x, i);
      LineAtShift(s, k, x, i - k - 1);
    }
  }

  /** The lines of text with a line break are the first line and the lines of
      the text after that break. */
  lemma LineAtBroken(s: string, k: nat, t: string, x: string)
    requires LineEnd(s) == k < |s| && t == s[k + 1..]
    ensures (exists i :: LineAt(s, x, i)) <==> x == s[..k] || exists j :: LineAt(t, x, j)
  {
    LineAtStart(s, x);
    if exists j :: LineAt(t, x, j) {
      var j :| LineAt(t, x, j);
      LineAtShift(s, k, x, j);
    }
    if exists i :: LineAt(s, x, i) {
      var i :| LineAt(s, x, i);
      LineAtCases(s, k, t, x, i);
    }
  }

  /** The elements of `Lines(s)` are exactly the lines of `s`. */
  lemma {:induction false} LinesAreLineAt(s: string, x: string)
    ensures x in Lines(s) <==> exists i :: LineAt(s, x, i)
    decreases |s|
  {
    if s != [] {
      var k := LineEnd(s);
      if k == |s| {
        assert Lines(s) == [s];
        LineAtUnbroken(s, x);
      } else {
        LinesAreLineAt(s[k + 1..], x);
        assert Lines(s) == [s[..k]] + Lines(s[k + 1..]);
        LineAtBroken(s, k, s[k + 1..], x);
      }
    }
  }

  /** Splitting text that ends with a line break, followed by more text, splits
      the two parts independently. */
  lemma {:induction false} LinesAppend(a: string, b: string)
    requires Terminated(a)
    ensures Lines(a + b) == Lines(a) + Lines(b)
    decreases |a|
  {
    if a == [] {
      assert a + b == b;
    } else {
      var k := LineEnd(a);
      if k == |a| {
        assert false;
      }
      assert (a + b)[..k + 1] == a[..k + 1];
      LineEndUnique(a + b, k);
      assert (a + b)[..k] == a[..k];
      assert (a + b)[k + 1..] == a[k + 1..] + b;
      LinesAppend(a[k + 1..], b);
    }
  }

  lemma {:induction false} UnlinesLast(ls: seq<string>)
    requires ls != []
    ensures Unlines(ls) == Unlines(ls[..|ls| - 1]) + (ls[|ls| - 1] + "\n")
  {
  }

  /** One line followed by a break splits into that line. */
  lemma LinesOfLine(l: string)
    requires NoBreak(l)
    ensures Lines(l + "\n") == [l]
  {
    LineEndUnique(l + "\n", |l|);
    assert (l + "\n")[..|l|] == l;
    assert (l + "\n")[|l| + 1..] == [];
  }

  /** Splitting what `Unlines` wrote gives back the lines it was given, as long
      as none of them holds a line break. */
  lemma {:induction false} LinesOfUnlines(ls: seq<string>)
    requires forall k :: 0 <= k < |ls| ==> NoBreak(ls[k])
    ensures Lines(Unlines(ls)) == ls
  {
    if ls != [] {
      var init, last := ls[..|ls| - 1], ls[|ls| - 1];
      LinesOfUnlines(init);
      UnlinesTerminated(init);
      UnlinesLast(ls);
      LinesAppend(Unlines(init), last + "\n");
      LinesOfLine(last);
      assert init + [last] == ls;
    }
  }
}
