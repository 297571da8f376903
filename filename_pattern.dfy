/**
 * The pattern `^([0-9a-f]*)-?(.*?).svg$` that `_create_from_filename` matches
 * KanjiVG file names against, with the semantics of Python's `re.match`.
 *
 * `MatchFilename` follows the backtracking search of the regular expression
 * engine; `FilenameGroups` says in one step which groups that search ends
 * with, and `MatchFilenameGroups` proves the two agree on every string.
 */
module FilenamePattern {
  import opened Wrappers
  import opened HexFormat

  /**
   * The position where `$` can match: the end of the name, or just before a
   * single newline that ends it.
   */
  function MatchEnd(name: string): (e: nat)
    ensures e <= |name| && |name| - e <= 1
    ensures e < |name| <==> |name| > 0 && name[|name| - 1] == '\n'
  {
    if |name| > 0 && name[|name| - 1] == '\n' then |name| - 1 else |name|
  }

  /** The three characters before position `e` are `svg`. */
  predicate SvgAt(name: string, e: nat) {
    3 <= e <= |name| && name[e - 3] == 's' && name[e - 2] == 'v' && name[e - 1] == 'g'
  }

  /**
   * `.svg$` matches from position `t`: the unescaped `.` takes any character
   * but a newline, then come `svg`, and `$` matches at the end of the name or
   * just before a newline that ends it.
   */
  predicate TailAt(name: string, t: nat) {
    t + 4 <= |name| && name[t] != '\n' && SvgAt(name, t + 4) &&
    (t + 4 == |name| || (t + 4 == |name| - 1 && name[|name| - 1] == '\n'))
  }

  /**
   * The lazy group `(.*?)`, grown up to position `t` so far: it lets the rest
   * of the pattern try first and takes one more character (never a newline)
   * only when that fails. The result is where the group ends.
   */
  function LazyGroup(name: string, t: nat): (r: Option<nat>)
    requires t <= |name|
    ensures r.Some? ==> t <= r.value && TailAt(name, r.value)
    decreases |name| - t
  {
    if TailAt(name, t) then Some(t)
    else if t < |name| && name[t] != '\n' then LazyGroup(name, t + 1)
    else None
  }

  /**
   * `-?(.*?).svg$` after a hex group of `k` digits: the greedy `-?` first
   * takes a `-` if there is one, and does without it only when that fails.
   * The result is where the variant group starts and ends.
   */
  function AfterDigits(name: string, k: nat): (r: Option<(nat, nat)>)
    requires k <= |name|
    ensures r.Some? ==> k <= r.value.0 <= r.value.1 <= |name|
  {
    if k < |name| && name[k] == '-' && LazyGroup(name, k + 1).Some? then
      Some((k + 1, LazyGroup(name, k + 1).value))
    else
      match LazyGroup(name, k)
      case Some(t) => Some((k, t))
      case None => None
  }

  /**
   * The backtracking search for the whole pattern, the hex group holding `k`
   * digits. While `scanning`, the greedy `([0-9a-f]*)` takes one more digit;
   * after that it gives digits back one at a time, from `k` down to none,
   * until the rest of the pattern matches.
   */
  function Search(name: string, k: nat, scanning: bool): Option<(string, string)>
    requires k <= |name|
    decreases scanning, if scanning then |name| - k else k
  {
    if scanning then
      if k < |name| && IsHexDigit(name[k]) then Search(name, k + 1, true) else Search(name, k, false)
    else
      match AfterDigits(name, k)
      case Some((s, t)) => Some((name[..k], name[s..t]))
      case None => if k == 0 then None else Search(name, k - 1, false)
  }

  /**
   * `re.match('^([0-9a-f]*)-?(.*?).svg$', name)` and its two groups, or
   * `None`. The hex group holds only digits and the variant group no newline.
   */
  function MatchFilename(name: string): (m: Option<(string, string)>)
    ensures m.Some? ==> AllHex(m.value.0) && '\n' !in m.value.1
  {
    SearchFindsGroups(name);
    FilenameGroupsShape(name);
    Search(name, 0, true)
  }

  /**
   * The groups `([0-9a-f]*)-?(.*?)` take from the text `body` that precedes
   * `.svg`: the hex group keeps the longest leading run of digits, `-?`
   * consumes a `-` right after the run, and the variant group is the rest.
   */
  function SplitGroups(body: string): (string, string)
  {
    var k := HexRun(body);
    if k < |body| && body[k] == '-' then (body[..k], body[k + 1..]) else (body[..k], body[k..])
  }

  /**
   * The outcome of the match in one step: `.svg` takes the four characters
   * before `MatchEnd(name)`, nothing before them may be a newline, and the
   * groups split the text before them.
   */
  function FilenameGroups(name: string): Option<(string, string)>
  {
    var e := MatchEnd(name);
    if e < 4 || !SvgAt(name, e) || '\n' in name[..e - 3] then None
    else Some(SplitGroups(name[..e - 4]))
  }

  /** The pattern matches exactly when `FilenameGroups` says so. */
  predicate Matches(name: string) {
    var e := MatchEnd(name);
    e >= 4 && SvgAt(name, e) && '\n' !in name[..e - 3]
  }

  /** `.svg$` can only match four characters before `MatchEnd`. */
  lemma TailAtEnd(name: string, t: nat)
    ensures TailAt(name, t) <==>
              var e := MatchEnd(name);
              t + 4 == e && name[t] != '\n' && SvgAt(name, e)
  {
  }

  /**
   * The lazy group started at `t` ends four characters before `MatchEnd`
   * when those four characters can be `.svg` and nothing from `t` up to them
   * is a newline; otherwise it finds no end at all.
   */
  lemma {:induction false} LazyGroupResult(name: string, t: nat)
    requires t <= |name|
    ensures var e := MatchEnd(name);
            LazyGroup(name, t) ==
              if t + 4 <= e && name[e - 4] != '\n' && SvgAt(name, e) && '\n' !in name[t..e - 4]
              then Some(e - 4) else None
    decreases |name| - t
  {
    var e := MatchEnd(name);
    TailAtEnd(name, t);
    if TailAt(name, t) {
      assert name[t..e - 4] == [];
    } else if t < |name| && name[t] != '\n' {
      LazyGroupResult(name, t + 1);
      if t + 4 < e {
        assert name[t..e - 4] == [name[t]] + name[t + 1..e - 4];
      }
    } else if t + 4 <= e {
      if t < |name| {
        assert name[t] == '\n';
        assert t + 4 < e ==> name[t..e - 4][0] == '\n';
      }
    }
  }

  /** `Matches` for a name whose first `s` characters hold no newline. */
  lemma MatchesFrom(name: string, s: nat)
    requires s <= |name| && '\n' !in name[..s]
    ensures var e := MatchEnd(name);
            s + 4 <= e ==>
              (Matches(name) <==> name[e - 4] != '\n' && SvgAt(name, e) && '\n' !in name[s..e - 4])
  {
    var e := MatchEnd(name);
    if s + 4 <= e {
      assert name[..e - 3] == name[..s] + name[s..e - 4] + [name[e - 4]];
    }
  }

  /** The scanning phase reads the longest run of digits, then starts giving them back. */
  lemma {:induction false} ScanDigits(name: string, k: nat)
    requires k <= HexRun(name)
    ensures Search(name, k, true) == Search(name, HexRun(name), false)
    decreases |name| - k
  {
    var k0 := HexRun(name);
    if k < k0 {
      assert name[..k0][k] == name[k];
      ScanDigits(name, k + 1);
    }
  }

  /** With no match in reach, giving back digits never helps. */
  lemma {:induction false} BacktrackFails(name: string, k: nat)
    requires k <= HexRun(name) && !Matches(name)
    ensures Search(name, k, false) == None
  {
    DigitsHoldNoNewline(name, k);
    LazyGroupResult(name, k);
    MatchesFrom(name, k);
    if k < |name| && name[k] == '-' {
      LazyGroupResult(name, k + 1);
      assert name[..k + 1] == name[..k] + [name[k]];
      MatchesFrom(name, k + 1);
    }
    if k > 0 {
      BacktrackFails(name, k - 1);
    }
  }

  /** Past the last four characters the rest of the pattern cannot match: one more digit goes back. */
  lemma GiveBack(name: string, k: nat)
    requires 0 < k <= |name| && k + 4 > MatchEnd(name)
    ensures Search(name, k, false) == Search(name, k - 1, false)
  {
    LazyGroupResult(name, k);
    if k < |name| && name[k] == '-' {
      LazyGroupResult(name, k + 1);
    }
  }

  /** Digits beyond the last four characters all go back. */
  lemma {:induction false} GiveBackAll(name: string, k: nat)
    requires 4 <= MatchEnd(name) && MatchEnd(name) - 4 <= k <= |name|
    ensures Search(name, k, false) == Search(name, MatchEnd(name) - 4, false)
    decreases k
  {
    if k > MatchEnd(name) - 4 {
      GiveBack(name, k);
      GiveBackAll(name, k - 1);
    }
  }

  /**
   * When the pattern matches, the search succeeds at the first count of
   * digits that leaves room for `.svg`, with the groups `FilenameGroups` names.
   */
  lemma FirstFit(name: string)
    requires Matches(name)
    ensures var e, k0 := MatchEnd(name), HexRun(name);
            Search(name, if k0 < e - 4 then k0 else e - 4, false) == FilenameGroups(name)
  {
    var e, k0 := MatchEnd(name), HexRun(name);
    var k := if k0 < e - 4 then k0 else e - 4;
    if k < e - 4 && name[k] == '-' {
      LazyAfterDash(name, k);
      SearchAfterDash(name, k);
      GroupsAfterDash(name, k);
    } else {
      LazyWithoutDash(name, k);
      SearchWithoutDash(name, k);
      GroupsWithoutDash(name, k);
    }
  }

  /** No newline can come before the end of a run of digits. */
  lemma DigitsHoldNoNewline(name: string, k: nat)
    requires k <= HexRun(name)
    ensures '\n' !in name[..k]
  {
    var k0 := HexRun(name);
    assert forall j :: 0 <= j < k ==> name[..k][j] == name[..k0][j];
  }

  /** After the digits and a `-`, the lazy group runs up to the final four characters. */
  lemma LazyAfterDash(name: string, k: nat)
    requires Matches(name) && k == HexRun(name) && k + 4 < MatchEnd(name) && name[k] == '-'
    ensures LazyGroup(name, k + 1) == Some(MatchEnd(name) - 4)
  {
    DigitsHoldNoNewline(name, k);
    assert name[..k + 1] == name[..k] + [name[k]];
    LazyGroupResult(name, k + 1);
    MatchesFrom(name, k + 1);
  }

  lemma SearchAfterDash(name: string, k: nat)
    requires k + 4 < MatchEnd(name) && name[k] == '-'
    requires LazyGroup(name, k + 1) == Some(MatchEnd(name) - 4)
    ensures Search(name, k, false) == Some((name[..k], name[k + 1..MatchEnd(name) - 4]))
  {
    assert AfterDigits(name, k) == Some((k + 1, MatchEnd(name) - 4));
  }

  lemma GroupsAfterDash(name: string, k: nat)
    requires Matches(name) && k == HexRun(name) && k + 4 < MatchEnd(name) && name[k] == '-'
    ensures FilenameGroups(name) == Some((name[..k], name[k + 1..MatchEnd(name) - 4]))
  {
    var e := MatchEnd(name);
    var body := name[..e - 4];
    HexRunOfPrefix(name, e - 4);
    assert body[..k] == name[..k] && body[k + 1..] == name[k + 1..e - 4];
  }

  /**
   * Right after the digits (with no `-` to take, or none that leaves room for
   * `.svg`), the lazy group runs up to the final four characters.
   */
  lemma LazyWithoutDash(name: string, k: nat)
    requires Matches(name)
    requires k == if HexRun(name) < MatchEnd(name) - 4 then HexRun(name) else MatchEnd(name) - 4
    requires !(k + 4 < MatchEnd(name) && name[k] == '-')
    ensures LazyGroup(name, k) == Some(MatchEnd(name) - 4)
    ensures k < |name| && name[k] == '-' ==> LazyGroup(name, k + 1).None?
  {
    DigitsHoldNoNewline(name, k);
    LazyGroupResult(name, k);
    MatchesFrom(name, k);
    if k < |name| && name[k] == '-' {
      LazyGroupResult(name, k + 1);
    }
  }

  lemma SearchWithoutDash(name: string, k: nat)
    requires k + 4 <= MatchEnd(name)
    requires LazyGroup(name, k) == Some(MatchEnd(name) - 4)
    requires k < |name| && name[k] == '-' ==> LazyGroup(name, k + 1).None?
    ensures Search(name, k, false) == Some((name[..k], name[k..MatchEnd(name) - 4]))
  {
    assert AfterDigits(name, k) == Some((k, MatchEnd(name) - 4));
  }

  lemma GroupsWithoutDash(name: string, k: nat)
    requires Matches(name)
    requires k == if HexRun(name) < MatchEnd(name) - 4 then HexRun(name) else MatchEnd(name) - 4
    requires !(k + 4 < MatchEnd(name) && name[k] == '-')
    ensures FilenameGroups(name) == Some((name[..k], name[k..MatchEnd(name) - 4]))
  {
    var e := MatchEnd(name);
    var body := name[..e - 4];
    HexRunOfPrefix(name, e - 4);
    assert body[..k] == name[..k] && body[k..] == name[k..e - 4];
  }

  /** The backtracking search ends with the groups `FilenameGroups` names. */
  lemma MatchFilenameGroups(name: string)
    ensures MatchFilename(name) == FilenameGroups(name)
  {
    SearchFindsGroups(name);
  }

  lemma SearchFindsGroups(name: string)
    ensures Search(name, 0, true) == FilenameGroups(name)
  {
    var e, k0 := MatchEnd(name), HexRun(name);
    ScanDigits(name, 0);
    if !Matches(name) {
      BacktrackFails(name, k0);
    } else {
      if k0 > e - 4 {
        GiveBackAll(name, k0);
      }
      FirstFit(name);
    }
  }

  /**
   * The pattern matches exactly when the name ends, before an optional final
   * newline, with `svg` after at least one more character, and holds no
   * newline before that `svg`.
   */
  lemma MatchDomain(name: string)
    ensures MatchFilename(name).Some? <==> Matches(name)
  {
    MatchFilenameGroups(name);
  }

  /**
   * The hex group is a maximal run of digits, and the body is the hex group,
   * then the separator `-` exactly when one follows the digits, then the
   * variant group.
   */
  lemma SplitGroupsShape(body: string)
    ensures var (digits, variant) := SplitGroups(body);
            AllHex(digits) && (|digits| < |body| ==> !IsHexDigit(body[|digits|])) &&
            body == if |digits| < |body| && body[|digits|] == '-' then digits + "-" + variant
                    else digits + variant
  {
    var k := HexRun(body);
    if k < |body| && body[k] == '-' {
      assert body == body[..k] + "-" + body[k + 1..];
    } else {
      assert body == body[..k] + body[k..];
    }
  }

  /**
   * What a match says about the name: up to where `$` matched, it is the
   * hex group, the separator `-` when one follows the digits, the variant
   * group (which holds no newline) and four final characters, the first of
   * them no newline either.
   */
  lemma MatchFilenameShape(name: string)
    requires MatchFilename(name).Some?
    ensures var (digits, variant) := MatchFilename(name).value;
            var e := MatchEnd(name);
            e >= 4 && SvgAt(name, e) && AllHex(digits) && '\n' !in variant && name[e - 4] != '\n' &&
            (|digits| < e - 4 ==> !IsHexDigit(name[|digits|])) &&
            if |digits| < e - 4 && name[|digits|] == '-' then
              name[..e] == digits + "-" + variant + name[e - 4..e]
            else
              name[..e] == digits + variant + name[e - 4..e]
  {
    MatchFilenameGroups(name);
    FilenameGroupsShape(name);
  }

  lemma FilenameGroupsShape(name: string)
    ensures FilenameGroups(name).Some? ==>
              var (digits, variant) := FilenameGroups(name).value;
              var e := MatchEnd(name);
              e >= 4 && SvgAt(name, e) && AllHex(digits) && '\n' !in variant && name[e - 4] != '\n' &&
              (|digits| < e - 4 ==> !IsHexDigit(name[|digits|])) &&
              if |digits| < e - 4 && name[|digits|] == '-' then
                name[..e] == digits + "-" + variant + name[e - 4..e]
              else
                name[..e] == digits + variant + name[e - 4..e]
  {
    if FilenameGroups(name).Some? {
      var e := MatchEnd(name);
      var body := name[..e - 4];
      SplitGroupsShape(body);
      var (digits, variant) := SplitGroups(body);
      assert name[..e - 3] == body + [name[e - 4]];
      assert name[..e] == body + name[e - 4..e];
      assert '\n' !in variant by {
        assert multiset(variant) <= multiset(body);
      }
      assert |digits| < e - 4 ==> name[|digits|] == body[|digits|];
    }
  }

  /** A body with no newline, followed by `.svg`, matches with the body's groups. */
  lemma MatchBodyAndSvg(body: string)
    requires '\n' !in body
    ensures MatchFilename(body + ".svg") == Some(SplitGroups(body))
  {
    var name := body + ".svg";
    var e := |name|;
    MatchFilenameGroups(name);
    assert MatchEnd(name) == e && SvgAt(name, e);
    assert name[..e - 4] == body;
    assert name[..e - 3] == body + ".";
  }

  /**
   * The `.` before `svg` is not escaped: any character but a newline in its
   * place gives the same groups.
   */
  lemma MatchIgnoresDot(p: string, c: char)
    requires c != '\n'
    ensures MatchFilename(p + [c] + "svg") == MatchFilename(p + ".svg")
  {
    var n1, n2 := p + [c] + "svg", p + ".svg";
    var e := |p| + 4;
    MatchFilenameGroups(n1);
    MatchFilenameGroups(n2);
    assert MatchEnd(n1) == e && MatchEnd(n2) == e;
    assert SvgAt(n1, e) && SvgAt(n2, e);
    assert n1[..e - 3] == p + [c] && n2[..e - 3] == p + ['.'];
    assert n1[..e - 4] == p == n2[..e - 4];
  }

  /** `$` also matches before one final newline, which therefore changes nothing. */
  lemma MatchIgnoresFinalNewline(name: string)
    requires name == [] || name[|name| - 1] != '\n'
    ensures MatchFilename(name + "\n") == MatchFilename(name)
  {
    var n2 := name + "\n";
    var e := |name|;
    MatchFilenameGroups(name);
    MatchFilenameGroups(n2);
    assert MatchEnd(n2) == e && MatchEnd(name) == e;
    if e >= 4 {
      assert SvgAt(n2, e) == SvgAt(name, e);
      assert n2[..e - 3] == name[..e - 3];
      assert n2[..e - 4] == name[..e - 4];
    }
  }
}
