/**
 * The text-cleaning chain applied to the text clipped from a highlight
 * annotation: strip, UTF-8 round trip with "ignore", newline replacement,
 * replacement of the mojibake sequence "ï¿½".
 *
 * A Python str is a sequence of code points, lone surrogates included, so
 * text is modelled as a sequence of integers rather than of Dafny chars.
 */
module Text {

  /** A Python code point: any value in 0 .. 0x10FFFF, surrogates included. */
  type CodePoint = c: int | 0 <= c < 0x11_0000

  /** A Python str. */
  type Str = seq<CodePoint>

  const Newline: CodePoint := 0x0A
  const Space: CodePoint := 0x20

  /** "ï¿½": the code points U+00EF, U+00BF, U+00BD. */
  const Mojibake: Str := [0xEF, 0xBF, 0xBD]

  /** The code points Python's str.isspace accepts, which str.strip removes. */
  predicate IsSpace(c: CodePoint) {
    (0x09 <= c <= 0x0D) || (0x1C <= c <= 0x20) || c == 0x85 || c == 0xA0 ||
    c == 0x1680 || (0x2000 <= c <= 0x200A) || c == 0x2028 || c == 0x2029 ||
    c == 0x202F || c == 0x205F || c == 0x3000
  }

  /** Code points that UTF-8 cannot encode; "ignore" drops them. */
  predicate IsSurrogate(c: CodePoint) {
    0xD800 <= c <= 0xDFFF
  }

  /** The text of a Dafny string literal as a Python str. */
  function FromString(s: string): Str {
    seq(|s|, k requires 0 <= k < |s| => s[k] as int)
  }

  // ---------------------------------------------------------------------
  // str.strip()
  // ---------------------------------------------------------------------

  /** str.lstrip(): the suffix left once the leading whitespace is gone. */
  function TrimStart(s: Str): (r: Str)
    ensures |r| <= |s| && r == s[|s| - |r|..]
    ensures r == [] || !IsSpace(r[0])
    ensures forall k :: 0 <= k < |s| - |r| ==> IsSpace(s[k])
  {
    if |s| > 0 && IsSpace(s[0]) then TrimStart(s[1..]) else s
  }

  /** str.rstrip(): the prefix left once the trailing whitespace is gone. */
  function TrimEnd(s: Str): (r: Str)
    ensures |r| <= |s| && r == s[..|r|]
    ensures r == [] || !IsSpace(r[|r| - 1])
    ensures forall k :: |r| <= k < |s| ==> IsSpace(s[k])
  {
    if |s| > 0 && IsSpace(s[|s| - 1]) then TrimEnd(s[..|s| - 1]) else s
  }

  /** r is s[i..i + |r|], and everything of s outside that slice is whitespace. */
  predicate SliceInSpaces(s: Str, r: Str, i: nat)
    requires i + |r| <= |s|
  {
    r == s[i..i + |r|] &&
    (forall k :: 0 <= k < i ==> IsSpace(s[k])) &&
    (forall k :: i + |r| <= k < |s| ==> IsSpace(s[k]))
  }

  /** Whitespace is removed from both ends and nowhere else. */
  predicate IsStripOf(s: Str, r: Str) {
    (r == [] || (!IsSpace(r[0]) && !IsSpace(r[|r| - 1]))) &&
    exists i: nat :: i + |r| <= |s| && SliceInSpaces(s, r, i)
  }

  lemma TrimmedSlice(s: Str, t: Str, r: Str, i: nat)
    requires i + |t| == |s| && t == s[i..] && |r| <= |t| && r == t[..|r|]
    requires forall k :: 0 <= k < i ==> IsSpace(s[k])
    requires forall k :: |r| <= k < |t| ==> IsSpace(t[k])
    ensures SliceInSpaces(s, r, i)
  {
    assert r == s[i..i + |r|];
    forall k | i + |r| <= k < |s| ensures IsSpace(s[k]) {
      assert s[k] == t[k - i];
    }
  }

  /** str.strip() */
  function Strip(s: Str): Str {
    TrimEnd(TrimStart(s))
  }

  lemma StripSpec(s: Str)
    ensures IsStripOf(s, Strip(s))
  {
    var t := TrimStart(s);
    var r := TrimEnd(t);
    var i := |s| - |t|;
    TrimmedSlice(s, t, r, i);
    assert r != [] ==> r[0] == t[0];
    assert i + |r| <= |s| && SliceInSpaces(s, r, i);
  }

  // ---------------------------------------------------------------------
  // .encode("utf-8", "ignore").decode("utf-8")
  // ---------------------------------------------------------------------

  /** The UTF-8 round trip with "ignore": every surrogate is dropped, the rest kept in order. */
  function DropSurrogates(s: Str): (r: Str)
    ensures |r| <= |s|
    ensures forall k :: 0 <= k < |r| ==> !IsSurrogate(r[k])
    ensures forall c :: c in r <==> c in s && !IsSurrogate(c)
    ensures (forall k :: 0 <= k < |s| ==> !IsSurrogate(s[k])) ==> r == s
  {
    if s == [] then []
    else (if IsSurrogate(s[0]) then [] else [s[0]]) + DropSurrogates(s[1..])
  }

  /** One step of the round trip: the first code point is kept or dropped, then the rest follows. */
  lemma DropSurrogatesCons(c: CodePoint, s: Str)
    ensures DropSurrogates([c] + s) == (if IsSurrogate(c) then [] else [c]) + DropSurrogates(s)
  {
    assert ([c] + s)[0] == c && ([c] + s)[1..] == s;
  }

  /** The round trip works piece by piece: it keeps the order of what it keeps. */
  lemma {:induction false} DropSurrogatesAppend(a: Str, b: Str)
    ensures DropSurrogates(a + b) == DropSurrogates(a) + DropSurrogates(b)
    decreases |a|
  {
    if a == [] {
      assert a + b == b;
    } else {
      var c, rest := a[0], a[1..];
      var head := if IsSurrogate(c) then [] else [c];
      assert a == [c] + rest;
      assert a + b == [c] + (rest + b);
      DropSurrogatesCons(c, rest + b);
      DropSurrogatesCons(c, rest);
      DropSurrogatesAppend(rest, b);
      var x, y := DropSurrogates(rest), DropSurrogates(b);
      StrAssoc(head, x, y);
    }
  }

  lemma StrAssoc(x: Str, y: Str, z: Str)
    ensures x + (y + z) == (x + y) + z
  {
  }

  /** A single code point is kept exactly when it is not a surrogate. */
  lemma DropSurrogatesOne(c: CodePoint)
    ensures DropSurrogates([c]) == if IsSurrogate(c) then [] else [c]
  {
    assert [c][1..] == [];
  }

  // ---------------------------------------------------------------------
  // str.replace(pat, rep)
  // ---------------------------------------------------------------------

  predicate OccursAt(s: Str, pat: Str, i: nat)
    requires i + |pat| <= |s|
  {
    s[i..i + |pat|] == pat
  }

  predicate Occurs(s: Str, pat: Str) {
    exists i: nat :: i + |pat| <= |s| && OccursAt(s, pat, i)
  }

  predicate StartsWith(s: Str, pat: Str) {
    |s| >= |pat| && s[..|pat|] == pat
  }

  /** str.replace: scan left to right, replacing each non-overlapping occurrence. */
  function Replace(s: Str, pat: Str, rep: Str): Str
    requires |pat| > 0
    decreases |s|
  {
    if StartsWith(s, pat) then rep + Replace(s[|pat|..], pat, rep)
    else if s == [] then []
    else [s[0]] + Replace(s[1..], pat, rep)
  }

  /** The number of occurrences str.replace replaces (str.count). */
  function Count(s: Str, pat: Str): nat
    requires |pat| > 0
    decreases |s|
  {
    if StartsWith(s, pat) then 1 + Count(s[|pat|..], pat)
    else if s == [] then 0
    else Count(s[1..], pat)
  }

  /** Each occurrence changes the length by |rep| - |pat|. */
  lemma {:induction false} ReplaceLength(s: Str, pat: Str, rep: Str)
    requires |pat| > 0
    ensures |Replace(s, pat, rep)| == |s| + Count(s, pat) * (|rep| - |pat|)
    decreases |s|
  {
    if StartsWith(s, pat) {
      ReplaceLength(s[|pat|..], pat, rep);
      MulStep(Count(s[|pat|..], pat), |rep| - |pat|);
    } else if s != [] {
      ReplaceLength(s[1..], pat, rep);
    }
  }

  lemma MulStep(c: nat, d: int)
    ensures (1 + c) * d == d + c * d
  {
  }

  /** Replacing a single code point is a pointwise map that keeps the length. */
  lemma {:induction false} ReplaceOnePointwise(s: Str, a: CodePoint, b: CodePoint)
    ensures |Replace(s, [a], [b])| == |s|
    ensures forall k :: 0 <= k < |s| ==> Replace(s, [a], [b])[k] == if s[k] == a then b else s[k]
    decreases |s|
  {
    if s != [] {
      ReplaceOnePointwise(s[1..], a, b);
    }
  }

  /** A code point in neither the input nor the replacement is not in the output. */
  lemma {:induction false} ReplaceKeepsAbsent(s: Str, pat: Str, rep: Str, c: CodePoint)
    requires |pat| > 0 && c !in s && c !in rep
    ensures c !in Replace(s, pat, rep)
    decreases |s|
  {
    if StartsWith(s, pat) {
      assert c !in s[|pat|..] by { assert forall k :: 0 <= k < |s| - |pat| ==> s[|pat|..][k] == s[k + |pat|]; }
      ReplaceKeepsAbsent(s[|pat|..], pat, rep, c);
    } else if s != [] {
      assert c !in s[1..] by { assert forall k :: 0 <= k < |s| - 1 ==> s[1..][k] == s[k + 1]; }
      ReplaceKeepsAbsent(s[1..], pat, rep, c);
    }
  }

  /** The first code point of the output, and how the scan proceeds past a non-match. */
  lemma ReplaceFirst(u: Str, pat: Str, rep: Str)
    requires |pat| > 0 && |rep| > 0 && u != []
    ensures StartsWith(u, pat) ==> Replace(u, pat, rep)[0] == rep[0]
    ensures !StartsWith(u, pat) ==> Replace(u, pat, rep) == [u[0]] + Replace(u[1..], pat, rep)
  {
  }

  /** A non-empty input always gives a non-empty output when rep is non-empty. */
  lemma ReplaceNonEmpty(s: Str, pat: Str, rep: Str)
    requires |pat| > 0 && |rep| > 0
    ensures Replace(s, pat, rep) == [] <==> s == []
  {
  }

  /**
   * When no code point of rep occurs in pat, a prefix of the output made only of
   * code points of pat was copied unchanged from the input.
   */
  lemma {:induction false} KeptPrefix(u: Str, pat: Str, rep: Str, m: nat)
    requires |pat| > 0 && |rep| > 0
    requires forall k :: 0 <= k < |rep| ==> rep[k] !in pat
    requires m <= |Replace(u, pat, rep)|
    requires forall j :: 0 <= j < m ==> Replace(u, pat, rep)[j] in pat
    ensures m <= |u| && Replace(u, pat, rep)[..m] == u[..m]
    decreases |u|
  {
    if m > 0 {
      var t := Replace(u, pat, rep);
      ReplaceFirst(u, pat, rep);
      assert t[0] in pat && rep[0] !in pat;
      assert !StartsWith(u, pat);
      {
        assert u != [];
        var t' := Replace(u[1..], pat, rep);
        assert t == [u[0]] + t';
        assert forall j :: 0 <= j < m - 1 ==> t'[j] == t[j + 1];
        KeptPrefix(u[1..], pat, rep, m - 1);
        assert t[..m] == [u[0]] + t'[..m - 1];
        assert u[..m] == [u[0]] + u[1..][..m - 1];
      }
    }
  }

  /** If rep shares no code point with pat, the output contains no occurrence of pat. */
  lemma {:induction false} ReplaceRemovesAll(s: Str, pat: Str, rep: Str)
    requires |pat| > 0 && |rep| > 0
    requires forall k :: 0 <= k < |rep| ==> rep[k] !in pat
    ensures !Occurs(Replace(s, pat, rep), pat)
    decreases |s|
  {
    var t := Replace(s, pat, rep);
    if StartsWith(s, pat) {
      var t' := Replace(s[|pat|..], pat, rep);
      ReplaceRemovesAll(s[|pat|..], pat, rep);
      forall i: nat | i + |pat| <= |t| ensures !OccursAt(t, pat, i) {
        if i < |rep| {
          assert t[i] == rep[i] && t[i..i + |pat|][0] == t[i];
        } else {
          assert t[i..i + |pat|] == t'[i - |rep|..i - |rep| + |pat|];
          assert !OccursAt(t', pat, i - |rep|);
        }
      }
    } else if s != [] {
      var t' := Replace(s[1..], pat, rep);
      ReplaceRemovesAll(s[1..], pat, rep);
      forall i: nat | i + |pat| <= |t| ensures !OccursAt(t, pat, i) {
        if i == 0 {
          if t[..|pat|] == pat {
            forall j | 0 <= j < |pat| ensures t[j] in pat {
              assert t[j] == pat[j];
            }
            KeptPrefix(s, pat, rep, |pat|);
            assert false;
          }
        } else {
          assert t[i..i + |pat|] == t'[i - 1..i - 1 + |pat|];
          assert !OccursAt(t', pat, i - 1);
        }
      }
    }
  }

  // ---------------------------------------------------------------------
  // The whole cleaning chain
  // ---------------------------------------------------------------------

  /** The first three steps of the chain: strip, UTF-8 round trip, "\n" -> " ". */
  function NewlinesReplaced(raw: Str): Str {
    Replace(DropSurrogates(Strip(raw)), [Newline], [Space])
  }

  /** strip, UTF-8 round trip with "ignore", "\n" -> " ", "ï¿½" -> " ", in that order. */
  function Clean(raw: Str): Str {
    Replace(NewlinesReplaced(raw), Mojibake, [Space])
  }

  /** Cleaned text contains neither a newline nor the mojibake sequence. */
  lemma CleanOutput(raw: Str)
    ensures Newline !in Clean(raw)
    ensures !Occurs(Clean(raw), Mojibake)
  {
    var d := DropSurrogates(Strip(raw));
    var n := Replace(d, [Newline], [Space]);
    ReplaceOnePointwise(d, Newline, Space);
    assert Newline !in n by {
      forall k | 0 <= k < |n| ensures n[k] != Newline { }
    }
    ReplaceKeepsAbsent(n, Mojibake, [Space], Newline);
    ReplaceRemovesAll(n, Mojibake, [Space]);
  }

  /**
   * Newline replacement keeps the length and every other code point; each
   * mojibake replacement shortens the text by two.
   */
  lemma CleanLength(raw: Str)
    ensures |NewlinesReplaced(raw)| == |DropSurrogates(Strip(raw))|
    ensures |Clean(raw)| == |NewlinesReplaced(raw)| - 2 * Count(NewlinesReplaced(raw), Mojibake)
  {
    var n := NewlinesReplaced(raw);
    ReplaceLength(DropSurrogates(Strip(raw)), [Newline], [Space]);
    ReplaceLength(n, Mojibake, [Space]);
    assert |Replace(n, Mojibake, [Space])| == |n| + Count(n, Mojibake) * (1 - 3);
  }

  /** The cleaned text is empty exactly when the stripped text holds only surrogates. */
  lemma CleanEmpty(raw: Str)
    ensures Clean(raw) == [] <==> forall k :: 0 <= k < |Strip(raw)| ==> IsSurrogate(Strip(raw)[k])
  {
    var s := Strip(raw);
    var d := DropSurrogates(s);
    var n := Replace(d, [Newline], [Space]);
    ReplaceNonEmpty(d, [Newline], [Space]);
    ReplaceNonEmpty(n, Mojibake, [Space]);
    if d != [] {
      assert d[0] in s && !IsSurrogate(d[0]);
    }
    if exists k :: 0 <= k < |s| && !IsSurrogate(s[k]) {
      var k :| 0 <= k < |s| && !IsSurrogate(s[k]);
      assert s[k] in d;
    }
  }

  /** Text whose first code point is not that of pat is left as it is. */
  lemma {:induction false} ReplaceAbsent(s: Str, pat: Str, rep: Str)
    requires |pat| > 0 && pat[0] !in s
    ensures Replace(s, pat, rep) == s
    decreases |s|
  {
    if s != [] {
      assert !StartsWith(s, pat) by { if |s| >= |pat| { assert s[..|pat|][0] == s[0]; } }
      assert pat[0] !in s[1..] by { assert forall k :: 0 <= k < |s| - 1 ==> s[1..][k] == s[k + 1]; }
      ReplaceAbsent(s[1..], pat, rep);
    }
  }

  /** Text in which pat does not occur is left as it is, even when it holds pat's first code point. */
  lemma {:induction false} ReplaceNotOccurring(s: Str, pat: Str, rep: Str)
    requires |pat| > 0 && !Occurs(s, pat)
    ensures Replace(s, pat, rep) == s
    decreases |s|
  {
    if StartsWith(s, pat) {
      assert OccursAt(s, pat, 0);
      assert false;
    } else if s != [] {
      assert !Occurs(s[1..], pat) by {
        forall i: nat | i + |pat| <= |s| - 1 && OccursAt(s[1..], pat, i)
          ensures OccursAt(s, pat, i + 1)
        {
          assert s[1..][i..i + |pat|] == s[i + 1..i + 1 + |pat|];
        }
      }
      ReplaceNotOccurring(s[1..], pat, rep);
    }
  }

  /** Replacing a single code point works piece by piece. */
  lemma {:induction false} ReplaceOneAppend(a: Str, b: Str, c: CodePoint, d: CodePoint)
    ensures Replace(a + b, [c], [d]) == Replace(a, [c], [d]) + Replace(b, [c], [d])
    decreases |a|
  {
    if a == [] {
      assert a + b == b;
    } else {
      assert (a + b)[0] == a[0] && (a + b)[1..] == a[1..] + b;
      assert StartsWith(a + b, [c]) == StartsWith(a, [c]) by {
        assert (a + b)[..1] == [a[0]] && a[..1] == [a[0]];
      }
      ReplaceOneAppend(a[1..], b, c, d);
    }
  }

  /** "line one", "line two", and the example built from them, as code points. */
  const LineOne: Str := [108, 105, 110, 101, 32, 111, 110, 101]
  const LineTwo: Str := [108, 105, 110, 101, 32, 116, 119, 111]
  const ExampleStripped: Str := LineOne + [Newline] + LineTwo
  const ExampleRaw: Str := ExampleStripped + [Space, Space]
  const ExampleCleaned: Str := LineOne + [Space] + LineTwo

  lemma ExampleStrip()
    ensures Strip(ExampleRaw) == ExampleStripped
  {
    var raw := ExampleRaw;
    assert |raw| == 19 && raw[0] == 108 && raw[18] == Space && raw[17] == Space && raw[16] == 111;
    assert !IsSpace(raw[0]) && IsSpace(raw[18]);
    assert TrimStart(raw) == raw;
    assert raw[..18][..17] == raw[..17] == ExampleStripped;
    assert raw[..18][17] == Space && raw[..17][16] == 111;
    assert TrimEnd(raw) == TrimEnd(raw[..18]) == TrimEnd(raw[..17]);
  }

  lemma ExampleNoSurrogates()
    ensures DropSurrogates(ExampleStripped) == ExampleStripped
  {
    assert forall k | 0 <= k < |ExampleStripped| :: ExampleStripped[k] < 0x80;
  }

  lemma LinesWithoutNewline()
    ensures Replace(LineOne, [Newline], [Space]) == LineOne
    ensures Replace(LineTwo, [Newline], [Space]) == LineTwo
  {
    assert forall k | 0 <= k < |LineOne| :: LineOne[k] < 0x80 && LineOne[k] != Newline;
    assert forall k | 0 <= k < |LineTwo| :: LineTwo[k] < 0x80 && LineTwo[k] != Newline;
    ReplaceAbsent(LineOne, [Newline], [Space]);
    ReplaceAbsent(LineTwo, [Newline], [Space]);
  }

  lemma ExampleNewline()
    ensures Replace(ExampleStripped, [Newline], [Space]) == ExampleCleaned
  {
    ReplaceOneAppend(LineOne + [Newline], LineTwo, Newline, Space);
    ReplaceOneAppend(LineOne, [Newline], Newline, Space);
    LinesWithoutNewline();
    assert Replace([Newline], [Newline], [Space]) == [Space] by {
      assert StartsWith([Newline], [Newline]) && [Newline][1..] == [];
    }
  }

  lemma ExampleNoMojibake()
    ensures Replace(ExampleCleaned, Mojibake, [Space]) == ExampleCleaned
  {
    assert forall k | 0 <= k < |ExampleCleaned| :: ExampleCleaned[k] < 0x80;
    ReplaceAbsent(ExampleCleaned, Mojibake, [Space]);
  }

  /** Trimmed ends, the embedded newline turned into a space, the inner double space kept. */
  lemma CleanExample()
    ensures Clean(FromString("line one\nline two  ")) == FromString("line one line two")
  {
    assert FromString("line one\nline two  ") == ExampleRaw;
    assert FromString("line one line two") == ExampleCleaned;
    ExampleStrip();
    ExampleNoSurrogates();
    ExampleNewline();
    ExampleNoMojibake();
  }

  /** "noteï¿½" and "note " as code points. */
  const NoteRaw: Str := [110, 111, 116, 101, 0xEF, 0xBF, 0xBD]
  const NoteCleaned: Str := [110, 111, 116, 101, 0x20]

  lemma NoteStrip()
    ensures Strip(NoteRaw) == NoteRaw
  {
    assert NoteRaw[0] == 110 && NoteRaw[|NoteRaw| - 1] == 0xBD;
    assert !IsSpace(NoteRaw[0]) && !IsSpace(NoteRaw[|NoteRaw| - 1]);
  }

  lemma NoteNoSurrogates()
    ensures DropSurrogates(NoteRaw) == NoteRaw
  {
    assert forall k | 0 <= k < |NoteRaw| :: NoteRaw[k] < 0xD800;
  }

  lemma NoteNoNewline()
    ensures Replace(NoteRaw, [Newline], [Space]) == NoteRaw
  {
    assert forall k | 0 <= k < |NoteRaw| :: NoteRaw[k] != Newline;
    ReplaceAbsent(NoteRaw, [Newline], [Space]);
  }

  lemma NoteMojibake()
    ensures Replace(NoteRaw, Mojibake, [Space]) == NoteCleaned
  {
    var tail := NoteRaw[4..];
    assert tail == Mojibake && tail[3..] == [];
    assert Replace(tail, Mojibake, [Space]) == [Space];
    assert NoteRaw == [110, 111, 116, 101] + tail;
    assert !StartsWith(NoteRaw, Mojibake) && !StartsWith(NoteRaw[1..], Mojibake);
    assert !StartsWith(NoteRaw[2..], Mojibake) && !StartsWith(NoteRaw[3..], Mojibake);
    assert NoteRaw[1..][1..] == NoteRaw[2..] && NoteRaw[2..][1..] == NoteRaw[3..] && NoteRaw[3..][1..] == tail;
  }

  /** Stripping comes first, so a trailing "ï¿½" leaves a trailing space behind. */
  lemma CleanTrailingMojibake()
    ensures Clean(FromString("noteï¿½")) == FromString("note ")
  {
    assert FromString("noteï¿½") == NoteRaw;
    assert FromString("note ") == NoteCleaned;
    NoteStrip();
    NoteNoSurrogates();
    NoteNoNewline();
    NoteMojibake();
  }

  /** Printable ASCII: the space up to the tilde. */
  predicate IsPrintableAscii(s: Str) {
    forall k :: 0 <= k < |s| ==> 0x20 <= s[k] < 0x7F
  }

  /** Printable ASCII text that neither starts nor ends with a space comes through cleaning unchanged. */
  lemma CleanPlain(s: Str)
    requires IsPrintableAscii(s)
    requires s != [] ==> s[0] != Space && s[|s| - 1] != Space
    ensures Clean(s) == s
  {
    assert s != [] ==> !IsSpace(s[0]) && !IsSpace(s[|s| - 1]);
    assert TrimStart(s) == s;
    assert Strip(s) == s;
    assert DropSurrogates(s) == s;
    ReplaceAbsent(s, [Newline], [Space]);
    ReplaceAbsent(s, Mojibake, [Space]);
  }
}
