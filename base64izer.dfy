/**
 * The text side of the base64izer: deleting the stroke-number labels from a
 * KanjiVG SVG document, and choosing the name an exported file gets.
 */
module Base64izer {
  import opened Wrappers
  import opened KanjiFiles

  /** The pattern `<text.*?</text>` starts with this literal ... */
  const OPEN: string := "<text"
  /** ... and ends with this one. */
  const CLOSE: string := "</text>"

  /** `p` occurs in `s` at position `i`. */
  predicate OccursAt(s: string, i: nat, p: string) {
    i + |p| <= |s| && s[i..i + |p|] == p
  }

  /**
   * Where the lazy `.*?` followed by `</text>` stops when tried from
   * position `j`: the end of the first `</text>` at or after `j`, provided no
   * newline comes before it (`.` does not match a newline).
   */
  function CloseFrom(s: string, j: nat): (r: Option<nat>)
    requires j <= |s|
    ensures r.Some? ==> j + |CLOSE| <= r.value <= |s| && OccursAt(s, r.value - |CLOSE|, CLOSE)
    decreases |s| - j
  {
    if OccursAt(s, j, CLOSE) then Some(j + |CLOSE|)
    else if j < |s| && s[j] != '\n' then CloseFrom(s, j + 1)
    else None
  }

  /** The end of the match of `<text.*?</text>` that starts at the front of `s`, if any. */
  function SpanEnd(s: string): (r: Option<nat>)
    ensures r.Some? ==> |OPEN| + |CLOSE| <= r.value <= |s|
  {
    if OccursAt(s, 0, OPEN) then CloseFrom(s, |OPEN|) else None
  }

  /**
   * `KanjiBase64izer._remove_strokes(svg)`, that is
   * `re.sub("<text.*?</text>", "", svg)`: scanning from the left, each match
   * is deleted and the scan resumes after it; where no match starts, one
   * character is kept. The result is never longer than the input.
   */
  function RemoveStrokes(svg: string): (r: string)
    ensures |r| <= |svg|
    decreases |svg|
  {
    if |svg| == 0 then ""
    else match SpanEnd(svg)
      case Some(e) => RemoveStrokes(svg[e..])
      case None => [svg[0]] + RemoveStrokes(svg[1..])
  }

  /** Some `<text…</text>` match starts somewhere in `s`. */
  predicate HasSpan(s: string) {
    exists i :: 0 <= i < |s| && SpanEnd(s[i..]).Some?
  }

  /** `s` contains `<text` somewhere. */
  predicate HasOpen(s: string) {
    exists i :: 0 <= i < |s| && OccursAt(s, i, OPEN)
  }

  /** `a` is `b` with some characters deleted, the rest in their order. */
  predicate IsSubsequence(a: string, b: string)
    decreases |b|
  {
    |a| == 0 || (|b| > 0 && if a[0] == b[0] then IsSubsequence(a[1..], b[1..]) else IsSubsequence(a, b[1..]))
  }

  /**
   * `e` ends the first `</text>` that begins at or after `j`, and no newline
   * comes before it.
   */
  predicate FirstCloseEnds(s: string, j: nat, e: nat) {
    j + |CLOSE| <= e <= |s| && OccursAt(s, e - |CLOSE|, CLOSE) &&
    '\n' !in s[j..e - |CLOSE|] &&
    forall i :: j <= i < e - |CLOSE| ==> !OccursAt(s, i, CLOSE)
  }

  /**
   * The match found at the front of `s` is the leftmost-shortest one: `s`
   * starts with `<text`, the match ends with `</text>`, nothing between
   * them is a newline, and no earlier `</text>` begins after `<text`.
   * Conversely, any such prefix is the match.
   */
  lemma SpanEndIsShortestMatch(s: string, e: nat)
    ensures SpanEnd(s) == Some(e) <==> OccursAt(s, 0, OPEN) && FirstCloseEnds(s, |OPEN|, e)
  {
    if OccursAt(s, 0, OPEN) {
      CloseFromIsFirst(s, |OPEN|, e);
    }
  }

  lemma {:induction false} CloseFromIsFirst(s: string, j: nat, e: nat)
    requires j <= |s|
    ensures CloseFrom(s, j) == Some(e) <==> FirstCloseEnds(s, j, e)
    decreases |s| - j
  {
    if OccursAt(s, j, CLOSE) {
      CloseHere(s, j, e);
    } else if j < |s| && s[j] != '\n' {
      CloseFromIsFirst(s, j + 1, e);
      CloseLater(s, j, e);
    } else {
      CloseNever(s, j, e);
    }
  }

  /** A `</text>` right at `j` is the first one. */
  lemma CloseHere(s: string, j: nat, e: nat)
    requires OccursAt(s, j, CLOSE)
    ensures FirstCloseEnds(s, j, e) <==> e == j + |CLOSE|
  {
    assert s[j..j] == [];
  }

  /** Past an ordinary character, the first `</text>` is the one after it. */
  lemma CloseLater(s: string, j: nat, e: nat)
    requires j < |s| && s[j] != '\n' && !OccursAt(s, j, CLOSE)
    ensures FirstCloseEnds(s, j, e) <==> FirstCloseEnds(s, j + 1, e)
  {
    if j + 1 + |CLOSE| <= e <= |s| {
      assert s[j..e - |CLOSE|] == [s[j]] + s[j + 1..e - |CLOSE|];
    }
  }

  /** At the end of the text or at a newline, no `</text>` can follow. */
  lemma CloseNever(s: string, j: nat, e: nat)
    requires j <= |s| && (j == |s| || s[j] == '\n') && !OccursAt(s, j, CLOSE)
    ensures !FirstCloseEnds(s, j, e)
  {
    if j + |CLOSE| < e <= |s| {
      assert s[j..e - |CLOSE|][0] == s[j];
    }
  }

  /** The kept characters are the input's, in order: stroke removal only deletes. */
  lemma {:induction false} RemoveStrokesDeletes(svg: string)
    ensures IsSubsequence(RemoveStrokes(svg), svg)
    decreases |svg|
  {
    if |svg| > 0 {
      match SpanEnd(svg)
      case Some(e) =>
        RemoveStrokesDeletes(svg[e..]);
        SubsequenceOfSuffix(RemoveStrokes(svg[e..]), svg, e);
      case None =>
        RemoveStrokesDeletes(svg[1..]);
        assert RemoveStrokes(svg) == [svg[0]] + RemoveStrokes(svg[1..]);
    }
  }

  /** What is a subsequence of a suffix is one of the whole string. */
  lemma {:induction false} SubsequenceOfSuffix(a: string, b: string, k: nat)
    requires k <= |b| && IsSubsequence(a, b[k..])
    ensures IsSubsequence(a, b)
    decreases k
  {
    if k > 0 {
      SubsequenceOfSuffix(a, b[1..], k - 1);
      assert b[1..][k - 1..] == b[k..];
      SubsequenceDropFront(a, b);
    }
  }

  /** Deleting one more character in front keeps a subsequence a subsequence. */
  lemma {:induction false} SubsequenceDropFront(a: string, b: string)
    requires |b| > 0 && IsSubsequence(a, b[1..])
    ensures IsSubsequence(a, b)
    decreases |b|, 0
  {
    if |a| > 0 && a[0] == b[0] {
      SubsequenceTail(a, b[1..]);
    }
  }

  /** Dropping the first character of a subsequence leaves a subsequence. */
  lemma {:induction false} SubsequenceTail(a: string, b: string)
    requires |a| > 0 && IsSubsequence(a, b)
    ensures IsSubsequence(a[1..], b)
    decreases |b|, 1
  {
    if a[0] == b[0] {
      SubsequenceDropFront(a[1..], b);
    } else {
      SubsequenceTail(a, b[1..]);
      SubsequenceDropFront(a[1..], b);
    }
  }

  /**
   * The document comes back unchanged exactly when no match starts anywhere
   * in it; otherwise it comes back strictly shorter.
   */
  lemma {:induction false} RemoveStrokesUnchanged(svg: string)
    ensures RemoveStrokes(svg) == svg <==> !HasSpan(svg)
    ensures HasSpan(svg) ==> |RemoveStrokes(svg)| < |svg|
    decreases |svg|
  {
    if |svg| > 0 {
      match SpanEnd(svg)
      case Some(e) =>
        assert svg[0..] == svg;
        assert HasSpan(svg);
      case None =>
        RemoveStrokesUnchanged(svg[1..]);
        HasSpanOfTail(svg);
    }
  }

  /** With no match at the front, a match occurs in `s` exactly when one occurs in its tail. */
  lemma HasSpanOfTail(s: string)
    requires |s| > 0 && SpanEnd(s).None?
    ensures HasSpan(s) <==> HasSpan(s[1..])
  {
    if HasSpan(s) {
      var i :| 0 <= i < |s| && SpanEnd(s[i..]).Some?;
      assert i != 0 by {
        assert s[0..] == s;
      }
      assert s[1..][i - 1..] == s[i..];
    }
    if HasSpan(s[1..]) {
      var i :| 0 <= i < |s[1..]| && SpanEnd(s[1..][i..]).Some?;
      assert s[1..][i..] == s[i + 1..];
    }
  }

  /** A document without `<text` in it is returned unchanged. */
  lemma NoOpenUnchanged(svg: string)
    requires !HasOpen(svg)
    ensures RemoveStrokes(svg) == svg
  {
    if HasSpan(svg) {
      var i :| 0 <= i < |svg| && SpanEnd(svg[i..]).Some?;
      assert OccursAt(svg[i..], 0, OPEN);
      assert svg[i..][..|OPEN|] == svg[i..i + |OPEN|];
      assert OccursAt(svg, i, OPEN);
    }
    RemoveStrokesUnchanged(svg);
  }

  /** No match of `<text.*?</text>` starts in `s` before position `i`. */
  predicate NoSpanBefore(s: string, i: nat) {
    forall j {:trigger SpanEnd(s[j..])} :: 0 <= j < i && j <= |s| ==> SpanEnd(s[j..]).None?
  }

  /** Where no match starts at the front, the first character is kept. */
  lemma FrontKept(s: string)
    requires |s| > 0 && SpanEnd(s).None?
    ensures RemoveStrokes(s) == [s[0]] + RemoveStrokes(s[1..])
  {
  }

  /**
   * Putting the first character of `s` back in front of what follows the
   * first `i - 1` characters of its tail gives what follows `s[..i]`.
   */
  lemma PrependFirst(s: string, i: nat, r: string, rt: string, rest: string)
    requires 0 < i <= |s|
    requires r == [s[0]] + rt && rt == s[1..][..i - 1] + rest
    ensures r == s[..i] + rest
  {
    assert [s[0]] + s[1..][..i - 1] == s[..i];
  }

  /** A match at the front is deleted whole. */
  lemma MatchDeleted(s: string, e: nat)
    requires SpanEnd(s) == Some(e)
    ensures e <= |s| && RemoveStrokes(s) == RemoveStrokes(s[e..])
  {
  }

  /**
   * No match starts among the first `i` characters of `s`, stated one
   * character at a time.
   */
  predicate Unmatched(s: string, i: nat)
    decreases i
  {
    i <= |s| && (i == 0 || (SpanEnd(s).None? && Unmatched(s[1..], i - 1)))
  }

  /** The per-position statement of a match-free prefix implies the one-character-at-a-time one. */
  lemma {:induction false} UnmatchedOf(s: string, i: nat)
    requires i <= |s| && NoSpanBefore(s, i)
    ensures Unmatched(s, i)
    decreases i
  {
    if i > 0 {
      assert SpanEnd(s[0..]).None?;
      assert s[0..] == s;
      forall j | 0 <= j < i - 1 && j <= |s| - 1
        ensures SpanEnd(s[1..][j..]).None?
      {
        assert s[1..][j..] == s[j + 1..];
      }
      UnmatchedOf(s[1..], i - 1);
    }
  }

  /**
   * One step of the scan: when no match starts at the front, what the tail
   * keeps of its first `i - 1` characters is kept in `s` after the first
   * character.
   */
  lemma KeptFront(s: string, i: nat)
    requires 0 < i <= |s| && SpanEnd(s).None?
    requires RemoveStrokes(s[1..]) == s[1..][..i - 1] + RemoveStrokes(s[1..][i - 1..])
    ensures RemoveStrokes(s) == s[..i] + RemoveStrokes(s[i..])
  {
    assert s[1..][i - 1..] == s[i..];
    FrontKept(s);
    PrependFirst(s, i, RemoveStrokes(s), RemoveStrokes(s[1..]), RemoveStrokes(s[i..]));
  }

  /** A prefix in which no match starts is kept as it is. */
  lemma {:induction false} KeptBefore(s: string, i: nat)
    requires Unmatched(s, i)
    ensures RemoveStrokes(s) == s[..i] + RemoveStrokes(s[i..])
    decreases i
  {
    if i == 0 {
      assert s[..0] + RemoveStrokes(s[0..]) == RemoveStrokes(s) by {
        assert s[0..] == s;
      }
    } else {
      KeptBefore(s[1..], i - 1);
      KeptFront(s, i);
    }
  }

  /**
   * Leftmost, non-overlapping deletion: when the first match in `s` starts
   * at `i` and ends `e` characters later, everything before it is kept as it
   * is, the match is deleted, and the scan goes on right after it.
   */
  lemma RemoveStrokesFirstMatch(s: string, i: nat, e: nat)
    requires i <= |s| && SpanEnd(s[i..]) == Some(e)
    requires NoSpanBefore(s, i)
    ensures i + e <= |s| && RemoveStrokes(s) == s[..i] + RemoveStrokes(s[i + e..])
  {
    UnmatchedOf(s, i);
    KeptBefore(s, i);
    MatchDeleted(s[i..], e);
    assert s[i..][e..] == s[i + e..];
  }

  /** `<text>1</text><text>2</text>` loses both labels and becomes empty. */
  lemma TwoLabelsExample()
    ensures RemoveStrokes("<text>1</text><text>2</text>") == ""
  {
    var s := "<text>1</text><text>2</text>";
    assert s[..6] == "<text>";
    assert s[7..14] == CLOSE;
    LabelSpan(s);
    var t := s[14..];
    assert t == "<text>2</text>";
    assert t[..6] == "<text>";
    assert t[7..14] == CLOSE;
    LabelSpan(t);
    assert t[14..] == "";
  }

  /** A one-character label `<text>?</text>` at the front is a match of 14 characters. */
  lemma LabelSpan(s: string)
    requires |s| >= 14 && s[..6] == "<text>" && s[6] != '\n' && s[7..14] == CLOSE
    ensures SpanEnd(s) == Some(14)
  {
    assert s[..5] == s[..6][..5];
    assert OccursAt(s, 0, OPEN);
    assert s[5] == s[..6][5];
    assert !OccursAt(s, 5, CLOSE) by {
      assert s[5..12][0] == s[5];
    }
    assert !OccursAt(s, 6, CLOSE) by {
      assert s[6..13][6] == s[12] == s[7..14][5] != CLOSE[6];
    }
    assert OccursAt(s, 7, CLOSE);
    assert CloseFrom(s, 6) == Some(14);
  }

  /**
   * `KanjiBase64izer._get_dst_filename(kanji)`: the glyph name under the
   * `character` filename mode, the ASCII name under any other mode.
   */
  function DstFilename(filenameMode: string, kanji: Kanji): (r: Result<string, Error>)
    ensures r.Success? <==> filenameMode == "character" || |kanji.character| == 1
  {
    if filenameMode == "character" then Success(DisplayName(kanji.character, kanji.variant))
    else AsciiName(kanji.character, kanji.variant)
  }

  /**
   * For an object built from the corpus, the ASCII choice is the very file
   * its SVG was read from, and that name reads back as the same object.
   */
  lemma DstFilenameIsSource(store: Store, character: string, variant: Option<string>, filenameMode: string)
    requires Load(store, character, variant).Success?
    requires filenameMode != "character"
    ensures var k := Load(store, character, variant).value;
            var r := DstFilename(filenameMode, k);
            r.Success? && r.value in store && store[r.value] == Readable(k.svg) &&
            ('\n' !in k.variant ==> FromFilename(store, r.value) == Success(k))
  {
    var k := Load(store, character, variant).value;
    if '\n' !in k.variant {
      FromAsciiNameIsLoad(store, character, k.variant);
    }
  }

  /**
   * Under either mode, two objects built from the corpus for different
   * character/variant keys are given different destination names.
   */
  lemma DstFilenameInjective(store: Store, c1: string, v1: Option<string>, c2: string, v2: Option<string>, filenameMode: string)
    requires Load(store, c1, v1).Success? && Load(store, c2, v2).Success?
    requires var k1, k2 := Load(store, c1, v1).value, Load(store, c2, v2).value;
             DstFilename(filenameMode, k1) == DstFilename(filenameMode, k2)
    ensures c1 == c2 && NormalizeVariant(v1) == NormalizeVariant(v2)
  {
    if filenameMode == "character" {
      DisplayNameInjective(c1, NormalizeVariant(v1), c2, NormalizeVariant(v2));
    } else {
      AsciiNameInjective(c1, NormalizeVariant(v1), c2, NormalizeVariant(v2));
    }
  }

  /** The example beside `_get_dst_filename`: `a` is exported as `00061.svg`. */
  lemma DstFilenameExample(svg: string)
    ensures DstFilename("ascii", Kanji("a", "", svg)) == Success("00061.svg")
    ensures DstFilename("character", Kanji("a", "", svg)) == Success("a.svg")
  {
    AsciiNameOfA();
    assert VariantSuffix("") == ".svg";
    assert "a" + ".svg" == "a.svg";
  }
}
