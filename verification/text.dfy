/** The few Python `str` operations the bot relies on: `in`, `startswith`,
    `endswith`, `split` on a one-character separator, and `strip()`. */
module Text {

  /** `sub` occurs in `s` starting at index `i`. */
  predicate OccursAt(s: string, sub: string, i: int) {
    0 <= i && i + |sub| <= |s| && s[i..i + |sub|] == sub
  }

  /** Python's `sub in s`. */
  predicate Contains(s: string, sub: string) {
    exists i | 0 <= i <= |s| - |sub| :: OccursAt(s, sub, i)
  }

  /** Python's `s.startswith(prefix)`. */
  predicate StartsWith(s: string, prefix: string) {
    |prefix| <= |s| && s[..|prefix|] == prefix
  }

  /** Python's `s.endswith(suffix)`. */
  predicate EndsWith(s: string, suffix: string) {
    |suffix| <= |s| && s[|s| - |suffix|..] == suffix
  }

  /** If `u` occurs in `t` and `t` occurs in `s`, then `u` occurs in `s`. */
  lemma ContainsTransitive(s: string, t: string, u: string)
    requires Contains(s, t) && Contains(t, u)
    ensures Contains(s, u)
  {
    var i :| 0 <= i <= |s| - |t| && OccursAt(s, t, i);
    var j :| 0 <= j <= |t| - |u| && OccursAt(t, u, j);
    forall k | 0 <= k < |u|
      ensures s[i + j + k] == u[k]
    {
      assert u[k] == t[j + k] == s[i..i + |t|][j + k];
    }
    assert s[i + j..i + j + |u|] == u;
    assert OccursAt(s, u, i + j);
  }

  // ---------------------------------------------------------------------------
  // split

  /** Joins `parts` with `sep` between consecutive parts (Python's `sep.join`). */
  function Join(parts: seq<string>, sep: char): string
    requires |parts| >= 1
  {
    if |parts| == 1 then parts[0] else parts[0] + [sep] + Join(parts[1..], sep)
  }

  /** Python's `s.split(sep)` for a one-character separator: the pieces of `s`
      between occurrences of `sep`, including empty pieces. */
  function Split(s: string, sep: char): (parts: seq<string>)
    ensures |parts| >= 1
    decreases |s|
  {
    if |s| == 0 then [""]
    else
      var rest := Split(s[1..], sep);
      if s[0] == sep then [""] + rest
      else [[s[0]] + rest[0]] + rest[1..]
  }

  /** Round trip: the pieces hold no separator, and joining them with the
      separator gives back the split string. */
  lemma {:induction false} SplitJoin(s: string, sep: char)
    ensures forall i :: 0 <= i < |Split(s, sep)| ==> sep !in Split(s, sep)[i]
    ensures Join(Split(s, sep), sep) == s
    decreases |s|
  {
    if |s| > 0 {
      var rest := Split(s[1..], sep);
      SplitJoin(s[1..], sep);
      var parts := Split(s, sep);
      if s[0] == sep {
        assert parts == [""] + rest;
        assert parts[1..] == rest;
      } else {
        assert parts == [[s[0]] + rest[0]] + rest[1..];
        if |rest| > 1 {
          assert parts[1..] == rest[1..];
          assert Join(rest, sep) == rest[0] + [sep] + Join(rest[1..], sep);
        }
      }
    }
  }

  /** The first piece is the text before the first separator: a prefix of the
      string followed by the separator or by the end. */
  lemma {:induction false} SplitFirstPiece(s: string, sep: char)
    ensures StartsWith(s, Split(s, sep)[0])
    ensures sep !in Split(s, sep)[0]
    ensures |Split(s, sep)[0]| == |s| || s[|Split(s, sep)[0]|] == sep
    decreases |s|
  {
    if |s| > 0 {
      SplitFirstPiece(s[1..], sep);
      var rest := Split(s[1..], sep);
      if s[0] != sep {
        assert Split(s, sep)[0] == [s[0]] + rest[0];
      }
    }
  }

  /** A string free of the separator is its own only piece. */
  lemma {:induction false} SplitWithoutSeparator(s: string, sep: char)
    requires sep !in s
    ensures Split(s, sep) == [s]
    decreases |s|
  {
    if |s| > 0 {
      SplitWithoutSeparator(s[1..], sep);
      assert [s[0]] + s[1..] == s;
    }
  }

  /** Splitting `a + [sep] + b` splits `a` and `b` separately. */
  lemma {:induction false} SplitAtSeparator(a: string, sep: char, b: string)
    ensures Split(a + [sep] + b, sep) == Split(a, sep) + Split(b, sep)
    decreases |a|
  {
    var s := a + [sep] + b;
    if |a| == 0 {
      assert s[1..] == b;
    } else {
      assert s[1..] == a[1..] + [sep] + b;
      SplitAtSeparator(a[1..], sep, b);
      if a[0] != sep {
        PrependToFirstPiece(a[0], Split(a[1..], sep), Split(b, sep));
      }
    }
  }

  /** Putting a character in front of the first piece commutes with appending
      more pieces. */
  lemma PrependToFirstPiece(c: char, front: seq<string>, back: seq<string>)
    requires |front| >= 1
    ensures var joined := front + back;
            [[c] + joined[0]] + joined[1..] == ([[c] + front[0]] + front[1..]) + back
  {
  }


  // ---------------------------------------------------------------------------
  // strip

  /** Python's `str.isspace()` for one character: the characters `strip()`
      removes when called without arguments. */
  predicate IsSpace(c: char) {
    || ('\t' <= c <= '\r')
    || ('\U{001C}' <= c <= '\U{001F}')
    || c == ' '
    || c == '\U{0085}'
    || c == '\U{00A0}'
    || c == '\U{1680}'
    || ('\U{2000}' <= c <= '\U{200A}')
    || c == '\U{2028}'
    || c == '\U{2029}'
    || c == '\U{202F}'
    || c == '\U{205F}'
    || c == '\U{3000}'
  }

  /** Every character of `t` is whitespace. */
  predicate AllSpace(t: string) {
    forall k :: 0 <= k < |t| ==> IsSpace(t[k])
  }

  /** Index of the first non-whitespace character of `s` (or `|s|`). */
  function StripStart(s: string): (i: nat)
    ensures i <= |s|
    ensures forall k :: 0 <= k < i ==> IsSpace(s[k])
    ensures i < |s| ==> !IsSpace(s[i])
    decreases |s|
  {
    if |s| > 0 && IsSpace(s[0]) then 1 + StripStart(s[1..]) else 0
  }

  /** One past the index of the last non-whitespace character of `s` (or 0). */
  function StripEnd(s: string): (j: nat)
    ensures j <= |s|
    ensures forall k :: j <= k < |s| ==> IsSpace(s[k])
    ensures 0 < j ==> !IsSpace(s[j - 1])
    decreases |s|
  {
    if |s| > 0 && IsSpace(s[|s| - 1]) then StripEnd(s[..|s| - 1]) else |s|
  }

  /** Python's `s.strip()`: `s` without its leading and trailing whitespace. */
  function Strip(s: string): (r: string)
    ensures |r| <= |s|
    ensures |r| > 0 ==> !IsSpace(r[0]) && !IsSpace(r[|r| - 1])
    ensures exists i | 0 <= i <= |s| - |r| ::
              OccursAt(s, r, i) && AllSpace(s[..i]) && AllSpace(s[i + |r|..])
  {
    var i := StripStart(s);
    var j := StripEnd(s);
    if i < j then
      assert OccursAt(s, s[i..j], i);
      assert AllSpace(s[..i]) && AllSpace(s[j..]);
      s[i..j]
    else
      assert OccursAt(s, "", 0);
      assert AllSpace(s[..0]) && AllSpace(s[0..]);
      ""
  }

  /** An occurrence inside the window `[i, j)` is an occurrence in the slice. */
  lemma OccursInSlice(s: string, sub: string, i: nat, j: nat, k: nat)
    requires i <= k && k + |sub| <= j <= |s|
    requires OccursAt(s, sub, k)
    ensures OccursAt(s[i..j], sub, k - i)
  {
    forall n | 0 <= n < |sub|
      ensures s[i..j][k - i + n] == sub[n]
    {
      assert s[i..j][k - i + n] == s[k + n] == s[k..k + |sub|][n];
    }
    assert s[i..j][k - i..k - i + |sub|] == sub;
  }

  /** An occurrence of such a needle lies between the stripped ends. */
  lemma OccurrenceWithinStrip(s: string, sub: string, k: nat)
    requires |sub| > 0 && !IsSpace(sub[0]) && !IsSpace(sub[|sub| - 1])
    requires OccursAt(s, sub, k)
    ensures StripStart(s) <= k && k + |sub| <= StripEnd(s)
  {
    assert s[k] == s[k..k + |sub|][0] == sub[0];
    assert s[k + |sub| - 1] == s[k..k + |sub|][|sub| - 1] == sub[|sub| - 1];
  }

  /** Surrounding whitespace never hides or creates an occurrence of a
      non-empty needle that starts and ends with non-whitespace. */
  lemma StripKeepsOccurrences(s: string, sub: string)
    requires |sub| > 0 && !IsSpace(sub[0]) && !IsSpace(sub[|sub| - 1])
    ensures Contains(Strip(s), sub) <==> Contains(s, sub)
  {
    if Contains(Strip(s), sub) {
      var i :| 0 <= i <= |s| - |Strip(s)| && OccursAt(s, Strip(s), i);
      ContainsTransitive(s, Strip(s), sub);
    }
    if Contains(s, sub) {
      var k :| 0 <= k <= |s| - |sub| && OccursAt(s, sub, k);
      var i := StripStart(s);
      var j := StripEnd(s);
      OccurrenceWithinStrip(s, sub, k);
      assert Strip(s) == s[i..j];
      OccursInSlice(s, sub, i, j, k);
    }
  }
}
