/**
 * The Python string built-ins the keyword analysis relies on, over ASCII:
 * `str.lower()`, `str.split()` (on runs of whitespace),
 * `str.split(sep)`, `str.split(c, 1)`, `str.strip()`, `sep.join(parts)` and
 * the substring test `needle in hay`.
 */
module Text {
  import opened Wrappers

  // ---------------------------------------------------------------------
  // Characters
  // ---------------------------------------------------------------------

  /** The ASCII whitespace that `str.split()` and `str.strip()` cut on: tab, line feed,
      vertical tab, form feed, carriage return, the separators 0x1C..0x1F and space. */
  predicate IsSpace(c: char) {
    9 <= c as int <= 13 || 28 <= c as int <= 32
  }

  /** The whitespace characters, one by one: space, tab, line feed, carriage
      return, vertical tab (11), form feed (12) and the separators 28..31. */
  lemma WhitespaceCharacters(c: char)
    ensures IsSpace(c) <==>
      (c == ' ' || c == '\t' || c == '\n' || c == '\r' || c as int in {11, 12, 28, 29, 30, 31})
  {
  }

  /** `str.lower()` on one ASCII character. */
  function LowerChar(c: char): (d: char)
    ensures 'A' <= c <= 'Z' ==> d as int == c as int + 32
    ensures !('A' <= c <= 'Z') ==> d == c
    ensures !('A' <= d <= 'Z')
    ensures IsSpace(d) <==> IsSpace(c)
  {
    if 'A' <= c <= 'Z' then (c as int + 32) as char else c
  }

  /** `str.lower()`: every upper-case ASCII letter replaced by its lower-case form. */
  function Lower(s: string): (r: string)
    ensures |r| == |s|
    ensures forall i :: 0 <= i < |s| ==> r[i] == LowerChar(s[i])
  {
    seq(|s|, i requires 0 <= i < |s| => LowerChar(s[i]))
  }

  lemma LowerIdempotent(s: string)
    ensures Lower(Lower(s)) == Lower(s)
  {
    assert forall i :: 0 <= i < |s| ==> LowerChar(LowerChar(s[i])) == LowerChar(s[i]);
  }

  lemma LowerConcat(a: string, b: string)
    ensures Lower(a + b) == Lower(a) + Lower(b)
  {
    assert forall i :: 0 <= i < |a| + |b| ==> Lower(a + b)[i] == (Lower(a) + Lower(b))[i];
  }

  /** A whitespace-free, non-empty string: what `str.split()` yields. */
  predicate IsWord(w: string) {
    |w| > 0 && forall i :: 0 <= i < |w| ==> !IsSpace(w[i])
  }

  // ---------------------------------------------------------------------
  // Substrings
  // ---------------------------------------------------------------------

  predicate OccursAt(hay: string, needle: string, i: nat) {
    i + |needle| <= |hay| && hay[i..i + |needle|] == needle
  }

  /** Python's `needle in hay` on strings. */
  predicate Contains(hay: string, needle: string)
    ensures |needle| == 0 ==> Contains(hay, needle)
    ensures Contains(hay, needle) ==> |needle| <= |hay|
  {
    assert |needle| == 0 ==> OccursAt(hay, needle, 0);
    exists i :: 0 <= i <= |hay| && OccursAt(hay, needle, i)
  }

  /** An occurrence inside an occurrence is an occurrence. */
  lemma ContainsTransitive(a: string, b: string, c: string)
    requires Contains(a, b) && Contains(b, c)
    ensures Contains(a, c)
  {
    var i :| 0 <= i <= |a| && OccursAt(a, b, i);
    var j :| 0 <= j <= |b| && OccursAt(b, c, j);
    assert forall k :: 0 <= k < |b| ==> a[i + k] == b[k];
    assert a[i + j..i + j + |c|] == b[j..j + |c|];
    assert OccursAt(a, c, i + j);
  }

  lemma ContainsLeft(a: string, b: string)
    ensures Contains(a + b, a)
  {
    assert OccursAt(a + b, a, 0);
  }

  lemma ContainsRight(a: string, b: string)
    ensures Contains(a + b, b)
  {
    assert (a + b)[|a|..|a| + |b|] == b;
    assert OccursAt(a + b, b, |a|);
  }

  // ---------------------------------------------------------------------
  // `str.split()` with no argument
  // ---------------------------------------------------------------------

  /** The longest whitespace-free prefix of `s`. */
  function TakeWord(s: string): (w: string)
    ensures |w| <= |s| && w == s[..|w|]
    ensures forall i :: 0 <= i < |w| ==> !IsSpace(w[i])
    ensures |w| < |s| ==> IsSpace(s[|w|])
    ensures |s| > 0 && !IsSpace(s[0]) ==> |w| > 0
  {
    if |s| == 0 || IsSpace(s[0]) then "" else [s[0]] + TakeWord(s[1..])
  }

  /** `s.split()`: the maximal runs of non-whitespace characters, in order. */
  function Words(s: string): (ws: seq<string>)
    ensures forall k :: 0 <= k < |ws| ==> IsWord(ws[k])
    decreases |s|
  {
    if |s| == 0 then []
    else if IsSpace(s[0]) then Words(s[1..])
    else var w := TakeWord(s); [w] + Words(s[|w|..])
  }

  /** `sep.join(parts)`. */
  function Join(sep: string, parts: seq<string>): (r: string)
    ensures |parts| == 0 ==> r == ""
    ensures |parts| > 0 ==> |parts[0]| <= |r| && r[..|parts[0]|] == parts[0]
    decreases |parts|
  {
    if |parts| == 0 then ""
    else if |parts| == 1 then parts[0]
    else parts[0] + sep + Join(sep, parts[1..])
  }

  lemma {:induction false} TakeWordOfWord(w: string, rest: string)
    requires forall i :: 0 <= i < |w| ==> !IsSpace(w[i])
    requires |rest| == 0 || IsSpace(rest[0])
    ensures TakeWord(w + rest) == w
    decreases |w|
  {
    if |w| == 0 {
    } else {
      assert (w + rest)[1..] == w[1..] + rest;
      TakeWordOfWord(w[1..], rest);
    }
  }

  /** Splitting a space-separated list of words gives the words back: the
      inverse of `" ".join` on whitespace-free tokens. */
  lemma {:induction false} WordsOfJoin(ws: seq<string>)
    requires forall k :: 0 <= k < |ws| ==> IsWord(ws[k])
    ensures Words(Join(" ", ws)) == ws
    decreases |ws|
  {
    if |ws| == 0 {
    } else if |ws| == 1 {
      TakeWordOfWord(ws[0], "");
      assert ws[0] + "" == ws[0];
      var w := ws[0];
      assert w[|w|..] == "";
    } else {
      var w := ws[0];
      var tail := Join(" ", ws[1..]);
      var s := w + " " + tail;
      assert s == w + (" " + tail);
      TakeWordOfWord(w, " " + tail);
      assert s[|w|..] == " " + tail;
      assert (" " + tail)[1..] == tail;
      WordsOfJoin(ws[1..]);
      assert Words(s) == [w] + Words(" " + tail);
    }
  }

  /** Leading whitespace of any kind and length yields no token. */
  lemma {:induction false} WordsSkipSpace(g: string, s: string)
    requires forall i :: 0 <= i < |g| ==> IsSpace(g[i])
    ensures Words(g + s) == Words(s)
    decreases |g|
  {
    if |g| > 0 {
      assert (g + s)[0] == g[0];
      assert (g + s)[1..] == g[1..] + s;
      assert Words(g + s) == Words((g + s)[1..]);
      WordsSkipSpace(g[1..], s);
    } else {
      assert g + s == s;
    }
  }

  /** A whitespace-free run followed by whitespace (or by nothing) is the next
      token. With `WordsSkipSpace` this fixes `Words` on every text. */
  lemma WordsFront(w: string, s: string)
    requires IsWord(w)
    requires |s| == 0 || IsSpace(s[0])
    ensures Words(w + s) == [w] + Words(s)
  {
    TakeWordOfWord(w, s);
    assert (w + s)[0] == w[0];
    assert (w + s)[|w|..] == s;
  }

  /** Every string of `ws` lower-cased. */
  function LowerAll(ws: seq<string>): (ls: seq<string>)
    ensures |ls| == |ws| && forall k :: 0 <= k < |ws| ==> ls[k] == Lower(ws[k])
    ensures (forall k :: 0 <= k < |ws| ==> IsWord(ws[k])) ==> forall k :: 0 <= k < |ls| ==> IsWord(ls[k])
  {
    seq(|ws|, k requires 0 <= k < |ws| => Lower(ws[k]))
  }

  /** Lower-casing a space-joined text lower-cases each of its pieces. */
  lemma {:induction false} LowerJoin(ws: seq<string>)
    ensures Lower(Join(" ", ws)) == Join(" ", LowerAll(ws))
    decreases |ws|
  {
    var lws := LowerAll(ws);
    if |ws| <= 1 {
    } else {
      LowerJoin(ws[1..]);
      assert lws[1..] == LowerAll(ws[1..]);
      LowerConcat(ws[0] + " ", Join(" ", ws[1..]));
      LowerConcat(ws[0], " ");
    }
  }

  /** Each piece of a join occurs in the joined text. */
  lemma {:induction false} PartInJoin(sep: string, ws: seq<string>, k: nat)
    requires k < |ws|
    ensures Contains(Join(sep, ws), ws[k])
    decreases |ws|
  {
    if |ws| == 1 {
      assert OccursAt(ws[0], ws[0], 0);
    } else if k == 0 {
      ContainsLeft(ws[0], sep + Join(sep, ws[1..]));
      assert ws[0] + sep + Join(sep, ws[1..]) == ws[0] + (sep + Join(sep, ws[1..]));
    } else {
      PartInJoin(sep, ws[1..], k - 1);
      ContainsRight(ws[0] + sep, Join(sep, ws[1..]));
      ContainsTransitive(Join(sep, ws), Join(sep, ws[1..]), ws[k]);
    }
  }

  /** A whitespace-free string found in a space-joined text lies inside one of
      its pieces; `k` is such a piece. */
  lemma {:induction false} InJoinWithinPart(ws: seq<string>, needle: string) returns (k: nat)
    requires IsWord(needle)
    requires Contains(Join(" ", ws), needle)
    ensures k < |ws| && Contains(ws[k], needle)
    decreases |ws|
  {
    var s := Join(" ", ws);
    var i :| 0 <= i <= |s| && OccursAt(s, needle, i);
    if |ws| == 1 {
      k := 0;
    } else {
      var w := ws[0];
      var rest := Join(" ", ws[1..]);
      assert s == w + " " + rest;
      if i + |needle| <= |w| {
        assert s[i..i + |needle|] == w[i..i + |needle|];
        assert OccursAt(w, needle, i);
        k := 0;
      } else if i > |w| {
        assert s[i..i + |needle|] == rest[i - |w| - 1..i - |w| - 1 + |needle|];
        assert OccursAt(rest, needle, i - |w| - 1);
        var j := InJoinWithinPart(ws[1..], needle);
        k := j + 1;
      } else {
        OccurrenceAvoidsSpace(s, needle, i, |w|);
        assert false;
      }
    }
  }

  /** The same for a lower-cased join: the word lies inside one lower-cased piece. */
  lemma WordInLoweredJoin(ws: seq<string>, needle: string) returns (k: nat)
    requires IsWord(needle)
    requires Contains(Lower(Join(" ", ws)), needle)
    ensures k < |ws| && Contains(Lower(ws[k]), needle)
  {
    var lws := LowerAll(ws);
    LowerJoin(ws);
    k := InJoinWithinPart(lws, needle);
    assert lws[k] == Lower(ws[k]);
  }

  lemma OccurrenceAvoidsSpace(hay: string, needle: string, i: nat, j: nat)
    requires IsWord(needle) && OccursAt(hay, needle, i) && i <= j < i + |needle|
    ensures !IsSpace(hay[j])
  {
    assert hay[j] == needle[j - i];
  }

  // ---------------------------------------------------------------------
  // `str.strip()`
  // ---------------------------------------------------------------------

  function TrimLeft(s: string): (r: string)
    ensures |r| <= |s| && r == s[|s| - |r|..]
    ensures forall i :: 0 <= i < |s| - |r| ==> IsSpace(s[i])
    ensures |r| > 0 ==> !IsSpace(r[0])
  {
    if |s| > 0 && IsSpace(s[0]) then
      TrimLeftStep(s, s[1..], TrimLeft(s[1..]));
      TrimLeft(s[1..])
    else s
  }

  /** A leading whitespace character cut off in front of a trimmed tail is
      still whitespace cut off in front of the whole string. */
  lemma TrimLeftStep(s: string, t: string, r: string)
    requires |s| > 0 && IsSpace(s[0]) && t == s[1..]
    requires |r| <= |t| && r == t[|t| - |r|..]
    requires forall i :: 0 <= i < |t| - |r| ==> IsSpace(t[i])
    ensures |r| <= |s| && r == s[|s| - |r|..]
    ensures forall i :: 0 <= i < |s| - |r| ==> IsSpace(s[i])
  {
    assert t[|t| - |r|..] == s[|s| - |r|..];
    forall i | 0 <= i < |s| - |r|
      ensures IsSpace(s[i])
    {
      if i > 0 {
        assert s[i] == t[i - 1];
      }
    }
  }

  function TrimRight(s: string): (r: string)
    ensures |r| <= |s| && r == s[..|r|]
    ensures forall i :: |r| <= i < |s| ==> IsSpace(s[i])
    ensures |r| > 0 ==> !IsSpace(r[|r| - 1])
  {
    if |s| > 0 && IsSpace(s[|s| - 1]) then TrimRight(s[..|s| - 1]) else s
  }

  /** `r` is `s[i..]` cut short, with only whitespace cut off on either side. */
  predicate TrimmedAt(s: string, r: string, i: nat) {
    i + |r| <= |s| && r == s[i..i + |r|]
    && (forall k :: 0 <= k < i ==> IsSpace(s[k]))
    && (forall k :: i + |r| <= k < |s| ==> IsSpace(s[k]))
  }

  /** `s.strip()`: `s` without its leading and trailing whitespace. */
  function Strip(s: string): (r: string)
    ensures exists i :: TrimmedAt(s, r, i)
    ensures |r| > 0 ==> !IsSpace(r[0]) && !IsSpace(r[|r| - 1])
  {
    TrimBoth(s, TrimLeft(s), TrimRight(TrimLeft(s)));
    TrimRight(TrimLeft(s))
  }

  /** Cutting whitespace off the front and then off the back of `s` leaves a
      slice of `s` with only whitespace cut off on either side, which neither
      starts nor ends with whitespace. */
  lemma TrimBoth(s: string, l: string, r: string)
    requires |l| <= |s| && l == s[|s| - |l|..]
    requires forall k :: 0 <= k < |s| - |l| ==> IsSpace(s[k])
    requires |l| > 0 ==> !IsSpace(l[0])
    requires |r| <= |l| && r == l[..|r|]
    requires forall k :: |r| <= k < |l| ==> IsSpace(l[k])
    requires |r| > 0 ==> !IsSpace(r[|r| - 1])
    ensures TrimmedAt(s, r, |s| - |l|)
    ensures |r| > 0 ==> !IsSpace(r[0]) && !IsSpace(r[|r| - 1])
  {
    var i := |s| - |l|;
    assert r == s[i..i + |r|];
    forall k | i + |r| <= k < |s| ensures IsSpace(s[k]) {
      assert s[k] == l[k - i];
    }
    if |r| > 0 {
      assert r[0] == l[0];
    }
  }

  /** Stripping a whitespace-free string changes nothing. */
  lemma StripWord(w: string)
    requires IsWord(w)
    ensures Strip(w) == w
  {
  }

  /** `[w.strip() for w in ws]`. */
  function StripAll(ws: seq<string>): (r: seq<string>)
    ensures |r| == |ws| && forall k :: 0 <= k < |ws| ==> r[k] == Strip(ws[k])
  {
    seq(|ws|, k requires 0 <= k < |ws| => Strip(ws[k]))
  }

  /** The tokens of `str.split()` are already stripped. */
  lemma StripAllWords(ws: seq<string>)
    requires forall k :: 0 <= k < |ws| ==> IsWord(ws[k])
    ensures StripAll(ws) == ws
  {
    forall k | 0 <= k < |ws| ensures StripAll(ws)[k] == ws[k] {
      StripWord(ws[k]);
    }
  }

  // ---------------------------------------------------------------------
  // `str.split(sep)` and `str.split(c, 1)`
  // ---------------------------------------------------------------------

  /** `s.split(sep)`: cut `s` at every occurrence of `sep`, scanning left to right. */
  function SplitOn(s: string, sep: string): (parts: seq<string>)
    requires |sep| > 0
    ensures |parts| >= 1
    ensures |parts[0]| <= |s| && parts[0] == s[..|parts[0]|]
    ensures forall k :: 0 <= k < |parts| ==> !Contains(parts[k], sep)
    decreases |s|
  {
    if |s| < |sep| then [s]
    else if s[..|sep|] == sep then [""] + SplitOn(s[|sep|..], sep)
    else
      var rest := SplitOn(s[1..], sep);
      FrontWithoutSeparator(s, rest[0], sep);
      [[s[0]] + rest[0]] + rest[1..]
  }

  /** Putting back the first character of `s` in front of a separator-free
      piece that follows it keeps the piece separator-free, as long as `s`
      does not itself start with the separator. */
  lemma FrontWithoutSeparator(s: string, p: string, sep: string)
    requires |sep| > 0 && |sep| <= |s| && s[..|sep|] != sep
    requires 1 + |p| <= |s| && p == s[1..1 + |p|]
    requires !Contains(p, sep)
    ensures !Contains([s[0]] + p, sep)
  {
    var q := [s[0]] + p;
    assert q == s[..1 + |p|];
    assert q[1..] == p;
    forall i | 0 <= i <= |q| ensures !OccursAt(q, sep, i) {
      if i == 0 {
        assert |sep| <= |q| ==> q[..|sep|] == s[..|sep|];
      } else {
        assert !OccursAt(p, sep, i - 1);
      }
    }
  }

  /** No occurrence of the separator starts inside the first piece: `split`
      cuts at the leftmost occurrence. */
  lemma {:induction false} SplitOnNoEarlierCut(s: string, sep: string)
    requires |sep| > 0
    ensures forall j :: 0 <= j < |SplitOn(s, sep)[0]| ==> !OccursAt(s, sep, j)
    decreases |s|
  {
    if |s| >= |sep| && s[..|sep|] != sep {
      var rest := SplitOn(s[1..], sep);
      SplitOnNoEarlierCut(s[1..], sep);
      forall j | 0 <= j < |SplitOn(s, sep)[0]| ensures !OccursAt(s, sep, j) {
        if j == 0 {
          assert |sep| <= |s| && s[0..|sep|] == s[..|sep|];
        } else {
          assert j - 1 < |rest[0]|;
          NoOccurrenceShift(s, sep, j);
        }
      }
    }
  }

  /** The split yields a single piece exactly when that piece is the whole text. */
  lemma {:induction false} SplitOnSinglePiece(s: string, sep: string)
    requires |sep| > 0
    ensures |SplitOn(s, sep)| == 1 <==> SplitOn(s, sep)[0] == s
    decreases |s|
  {
    if |s| >= |sep| && s[..|sep|] != sep {
      var rest := SplitOn(s[1..], sep);
      SplitOnSinglePiece(s[1..], sep);
      assert SplitOn(s, sep)[0] == [s[0]] + rest[0];
      assert s == [s[0]] + s[1..];
      assert [s[0]] + rest[0] == s <==> rest[0] == s[1..];
    }
  }

  /** After the first piece comes the separator, and the remaining pieces are
      the split of what follows it. */
  lemma {:induction false} SplitOnCut(s: string, sep: string)
    requires |sep| > 0
    ensures var p := SplitOn(s, sep);
      |p| > 1 ==> |p[0]| + |sep| <= |s| && OccursAt(s, sep, |p[0]|)
                  && p[1..] == SplitOn(s[|p[0]| + |sep|..], sep)
    decreases |s|
  {
    if |s| >= |sep| && s[..|sep|] == sep {
      var p := SplitOn(s, sep);
      assert p == [""] + SplitOn(s[|sep|..], sep);
      assert OccursAt(s, sep, 0);
      assert |p[0]| == 0 && p[1..] == SplitOn(s[|sep|..], sep);
    } else if |s| >= |sep| {
      var rest := SplitOn(s[1..], sep);
      SplitOnCut(s[1..], sep);
      var p := SplitOn(s, sep);
      assert p == [[s[0]] + rest[0]] + rest[1..];
      if |rest| > 1 {
        var tail := s[1..][|rest[0]| + |sep|..];
        assert rest[1..] == SplitOn(tail, sep);
        CutAfterFirstCharacter(s, sep, rest, p);
        assert tail == s[|p[0]| + |sep|..];
        assert p[1..] == SplitOn(s[|p[0]| + |sep|..], sep);
      }
    }
  }

  /** The inductive step of `SplitOnCut`: a first piece extended by the
      character in front keeps its cut, one position further on. */
  lemma CutAfterFirstCharacter(s: string, sep: string, rest: seq<string>, p: seq<string>)
    requires |s| > 0 && |rest| > 1 && p == [[s[0]] + rest[0]] + rest[1..]
    requires |rest[0]| + |sep| <= |s[1..]| && OccursAt(s[1..], sep, |rest[0]|)
    ensures |p[0]| + |sep| <= |s| && OccursAt(s, sep, |p[0]|)
    ensures p[1..] == rest[1..] && s[1..][|rest[0]| + |sep|..] == s[|p[0]| + |sep|..]
  {
    var n := |rest[0]|;
    OccurrenceShift(s, sep, n);
    assert |p[0]| == n + 1 && p[1..] == rest[1..];
  }

  lemma NoOccurrenceShift(s: string, sep: string, j: nat)
    requires 1 <= j <= |s| && !OccursAt(s[1..], sep, j - 1)
    ensures !OccursAt(s, sep, j)
  {
    if j + |sep| <= |s| {
      assert s[1..][j - 1..j - 1 + |sep|] == s[j..j + |sep|];
    }
  }

  lemma OccurrenceShift(s: string, sep: string, n: nat)
    requires |s| > 0 && n + |sep| <= |s| - 1 && OccursAt(s[1..], sep, n)
    ensures OccursAt(s, sep, n + 1) && s[1..][n + |sep|..] == s[n + 1 + |sep|..]
  {
    assert s[1..][n..n + |sep|] == s[n + 1..n + 1 + |sep|];
  }

  /** Joining the pieces of a split with the same separator restores the string. */
  lemma {:induction false} JoinSplitOn(s: string, sep: string)
    requires |sep| > 0
    ensures Join(sep, SplitOn(s, sep)) == s
    decreases |s|
  {
    if |s| < |sep| {
    } else if s[..|sep|] == sep {
      JoinSplitOn(s[|sep|..], sep);
      JoinEmptyFirst(sep, SplitOn(s[|sep|..], sep));
      assert s == s[..|sep|] + s[|sep|..];
    } else {
      JoinSplitOn(s[1..], sep);
      JoinExtendFirst(sep, s[0], SplitOn(s[1..], sep));
      assert s == [s[0]] + s[1..];
    }
  }

  lemma JoinEmptyFirst(sep: string, parts: seq<string>)
    requires |parts| >= 1
    ensures Join(sep, [""] + parts) == sep + Join(sep, parts)
  {
    assert ([""] + parts)[1..] == parts;
  }

  lemma JoinExtendFirst(sep: string, c: char, parts: seq<string>)
    requires |parts| >= 1
    ensures Join(sep, [[c] + parts[0]] + parts[1..]) == [c] + Join(sep, parts)
  {
    var extended := [[c] + parts[0]] + parts[1..];
    if |parts| > 1 {
      assert extended[1..] == parts[1..];
    }
  }

  /** For a one-character separator that occurs in no part, splitting undoes joining. */
  lemma {:induction false} SplitOnJoin(parts: seq<string>, c: char)
    requires |parts| >= 1
    requires forall k :: 0 <= k < |parts| ==> c !in parts[k]
    ensures SplitOn(Join([c], parts), [c]) == parts
    decreases |parts|
  {
    if |parts| == 1 {
      SplitOnNoSeparator(parts[0], c);
    } else {
      SplitOnNoSeparator(parts[0], c);
      SplitOnJoin(parts[1..], c);
      SplitOnPrefix(parts[0], Join([c], parts[1..]), c);
    }
  }

  lemma {:induction false} SplitOnNoSeparator(s: string, c: char)
    requires c !in s
    ensures SplitOn(s, [c]) == [s]
    decreases |s|
  {
    if |s| >= 1 {
      assert s[..1] == [s[0]];
      SplitOnNoSeparator(s[1..], c);
      assert s == [s[0]] + s[1..];
    }
  }

  lemma {:induction false} SplitOnPrefix(p: string, t: string, c: char)
    requires c !in p
    ensures SplitOn(p + [c] + t, [c]) == [p] + SplitOn(t, [c])
    decreases |p|
  {
    var s := p + [c] + t;
    if |p| == 0 {
      assert s[..1] == [c];
      assert s[1..] == t;
    } else {
      assert s[..1] == [p[0]];
      assert s[1..] == p[1..] + [c] + t;
      SplitOnPrefix(p[1..], t, c);
      assert [p[0]] + p[1..] == p;
    }
  }

  /** Joining two non-empty lists is joining their joins. */
  lemma {:induction false} JoinAppend(sep: string, a: seq<string>, b: seq<string>)
    requires |a| >= 1 && |b| >= 1
    ensures Join(sep, a + b) == Join(sep, a) + sep + Join(sep, b)
    decreases |a|
  {
    if |a| == 1 {
      assert (a + b)[1..] == b;
    } else {
      JoinAppend(sep, a[1..], b);
      assert (a + b)[1..] == a[1..] + b;
    }
  }

  /** `s.split(c, 1)[1]`: the text after the first `c`, or `None` when the
      index `[1]` would raise because `c` does not occur. */
  function AfterFirst(s: string, c: char): (r: Option<string>)
    ensures r.None? <==> c !in s
    ensures r.Some? ==> exists i :: 0 <= i < |s| && s[i] == c && c !in s[..i] && r.value == s[i + 1..]
  {
    if |s| == 0 then None
    else if s[0] == c then (assert s[..0] == ""; Some(s[1..]))
    else
      var r := AfterFirst(s[1..], c);
      if r.Some? then
        var i :| 0 <= i < |s| - 1 && s[1..][i] == c && c !in s[1..][..i] && r.value == s[1..][i + 1..];
        assert s[..i + 1] == [s[0]] + s[1..][..i];
        r
      else r
  }

  /** The occurrence of a string containing `c` puts `c` in the haystack. */
  lemma ContainsChar(hay: string, needle: string, c: char)
    requires Contains(hay, needle) && c in needle
    ensures c in hay
  {
    var i :| 0 <= i <= |hay| && OccursAt(hay, needle, i);
    var j :| 0 <= j < |needle| && needle[j] == c;
    assert hay[i + j] == needle[j];
  }
}
