/**
 * The KanjiVG side of the base64izer: how a character and an optional
 * variant name become a file name in the KanjiVG corpus, how a file name is
 * read back into a character and a variant, and how KanjiVG objects are built
 * from the corpus.
 *
 * The corpus directory is an abstract `Store` (file name to file state) and
 * its listing a `seq<string>`.
 */
module KanjiFiles {
  import opened Wrappers
  import opened HexFormat
  import opened FilenamePattern

  /** The exceptions the KanjiVG class lets escape, one constructor per cause. */
  datatype Error =
    /** `InvalidCharacterError(character, variant)`; `None` is Python's `None`. */
    | InvalidCharacterError(character: string, variant: Option<string>)
    /** Any other `IOError` from `open`, re-raised unchanged. */
    | IOError(errno: int)
    /** `re.match` found no match, so `m.group` fails on `None`. */
    | NoMatch(filename: string)
    /** `int(digits, 16)` rejected the (empty) hex group. */
    | InvalidHexLiteral(digits: string)
    /** `chr(n)` rejected the parsed code point. */
    | InvalidCodePoint(codePoint: nat)

  /** `errno.ENOENT`, the one error number that means "no such file". */
  const FILE_NOT_FOUND: int := 2

  /** What opening a file of the corpus for reading yields. */
  datatype FileState = Readable(text: string) | Unreadable(errno: int)

  /** The corpus directory: a file that is not listed here does not exist. */
  type Store = map<string, FileState>

  function Open(store: Store, name: string): (f: FileState)
    ensures name !in store ==> f == Unreadable(FILE_NOT_FOUND)
    ensures name in store ==> f == store[name]
  {
    if name in store then store[name] else Unreadable(FILE_NOT_FOUND)
  }

  /** The field values of a constructed KanjiVG object. */
  datatype Kanji = Kanji(character: string, variant: string, svg: string)

  /** The variant a KanjiVG object stores: `None` becomes the empty string. */
  function NormalizeVariant(variant: Option<string>): (v: string)
    ensures variant.Some? ==> v == variant.value
    ensures variant.None? ==> v == ""
  {
    if variant.None? then "" else variant.value
  }

  /** `-` and the variant, or nothing at all when the variant is empty. */
  function VariantTag(variant: string): string
  {
    if |variant| == 0 then "" else "-" + variant
  }

  /** What both naming schemes put after the character part. */
  function VariantSuffix(variant: string): string
  {
    VariantTag(variant) + ".svg"
  }

  /**
   * `KanjiVG.ascii_filename`: the code point as lower-case hex, padded to five
   * digits, then the variant suffix. A character that is not exactly one code
   * point cannot be formatted, and the error carries the (normalized) variant.
   */
  function AsciiName(character: string, variant: string): (r: Result<string, Error>)
    ensures r.Failure? <==> |character| != 1
    ensures r.Failure? ==> r.error == InvalidCharacterError(character, Some(variant))
  {
    if |character| != 1 then Failure(InvalidCharacterError(character, Some(variant)))
    else Success(Format05x(character[0] as int) + VariantSuffix(variant))
  }

  /**
   * The shape of an ASCII name: a maximal run of at least five hex digits
   * with no superfluous leading zero, reading as the code point, followed by
   * the variant suffix.
   */
  lemma AsciiNameShape(character: string, variant: string)
    requires |character| == 1
    ensures var r := AsciiName(character, variant).value;
            var k := HexRun(r);
            5 <= k && (k > 5 ==> r[0] != '0') &&
            HexValue(r[..k]) == character[0] as int &&
            r[k..] == VariantSuffix(variant)
  {
    var digits := Format05x(character[0] as int);
    var suffix := VariantSuffix(variant);
    Format05xSpec(character[0] as int);
    assert suffix[0] == '-' || suffix[0] == '.';
    HexRunOfConcat(digits, suffix);
    assert (digits + suffix)[..|digits|] == digits;
    assert (digits + suffix)[|digits|..] == suffix;
  }

  /** `KanjiVG.character_filename`: the glyph itself, then the variant suffix. */
  function DisplayName(character: string, variant: string): (r: string)
    ensures |r| == |character| + |VariantSuffix(variant)|
    ensures r[..|character|] == character && r[|character|..] == VariantSuffix(variant)
  {
    character + VariantSuffix(variant)
  }

  /** The code points `chr` accepts that a Dafny `char` can hold. */
  predicate IsScalarValue(n: int) {
    0 <= n < 0xD800 || 0xE000 <= n < 0x11_0000
  }

  /**
   * The arguments `_create_from_filename` passes to the constructor:
   * `chr(int(group(1), 16))` and `group(2)`, or the exception raised on the way.
   */
  function ParseFilename(name: string): (r: Result<(string, string), Error>)
    ensures r.Success? ==> |r.value.0| == 1 && '\n' !in r.value.1
    ensures MatchFilename(name).None? ==> r == Failure(NoMatch(name))
    ensures MatchFilename(name).Some? && MatchFilename(name).value.0 == "" ==>
              r == Failure(InvalidHexLiteral(""))
  {
    match MatchFilename(name)
    case None => Failure(NoMatch(name))
    case Some((digits, variant)) =>
      if |digits| == 0 then Failure(InvalidHexLiteral(digits))
      else
        var n := HexValue(digits);
        if IsScalarValue(n) then Success(([n as char], variant))
        else Failure(InvalidCodePoint(n))
  }

  /**
   * `KanjiVG(character, variant)`: the fields it ends up with, or the
   * exception it raises. A missing file is reported with the arguments as
   * given; any other I/O error passes through.
   */
  function Load(store: Store, character: string, variant: Option<string>): (r: Result<Kanji, Error>)
    ensures |character| != 1 ==>
              r == Failure(InvalidCharacterError(character, Some(NormalizeVariant(variant))))
    ensures |character| == 1 ==>
              var name := AsciiName(character, NormalizeVariant(variant)).value;
              match Open(store, name)
              case Readable(text) => r == Success(Kanji(character, NormalizeVariant(variant), text))
              case Unreadable(errno) =>
                r == Failure(if errno == FILE_NOT_FOUND then InvalidCharacterError(character, variant)
                             else IOError(errno))
  {
    var v := NormalizeVariant(variant);
    match AsciiName(character, v)
    case Failure(e) => Failure(e)
    case Success(name) =>
      match Open(store, name)
      case Readable(text) => Success(Kanji(character, v, text))
      case Unreadable(errno) =>
        if errno == FILE_NOT_FOUND then Failure(InvalidCharacterError(character, variant))
        else Failure(IOError(errno))
  }

  /**
   * `KanjiVG._create_from_filename(name)`: parse the name, then construct.
   * An object built this way holds one character and a newline-free variant.
   */
  function FromFilename(store: Store, name: string): (r: Result<Kanji, Error>)
    ensures r.Success? ==> |r.value.character| == 1 && '\n' !in r.value.variant
  {
    match ParseFilename(name)
    case Failure(e) => Failure(e)
    case Success((character, variant)) => Load(store, character, Some(variant))
  }

  /**
   * Round trip: the ASCII name of a character and a newline-free variant
   * parses back to that character and that variant, whatever `-` the variant
   * itself contains.
   */
  lemma AsciiNameRoundTrip(character: string, variant: string)
    requires |character| == 1 && '\n' !in variant
    ensures AsciiName(character, variant).Success?
    ensures MatchFilename(AsciiName(character, variant).value) ==
            Some((Format05x(character[0] as int), variant))
    ensures ParseFilename(AsciiName(character, variant).value) == Success((character, variant))
  {
    var n := character[0] as int;
    var digits := Format05x(n);
    Format05xSpec(n);
    MatchDigitsAndSuffix(digits, variant);
    assert [n as char] == character;
  }

  /** The match of a run of digits followed by a variant suffix. */
  lemma MatchDigitsAndSuffix(digits: string, variant: string)
    requires AllHex(digits) && '\n' !in variant
    ensures MatchFilename(digits + VariantSuffix(variant)) == Some((digits, variant))
  {
    var body := digits + VariantTag(variant);
    assert digits + VariantSuffix(variant) == body + ".svg";
    assert '\n' !in body by {
      assert forall i :: 0 <= i < |digits| ==> digits[i] != '\n';
      assert forall i :: 0 <= i < |body| ==> body[i] in digits || body[i] == '-' || body[i] in variant;
    }
    MatchBodyAndSvg(body);
    SplitGroupsOfKey(digits, variant);
  }

  /** The groups of a run of digits followed by a variant tag are the digits and the variant. */
  lemma SplitGroupsOfKey(digits: string, variant: string)
    requires AllHex(digits)
    ensures SplitGroups(digits + VariantTag(variant)) == (digits, variant)
  {
    var body := digits + VariantTag(variant);
    var k := |digits|;
    HexRunOfConcat(digits, VariantTag(variant));
    assert body[..k] == digits;
    if |variant| > 0 {
      assert body[k] == '-' && body[k + 1..] == variant;
    } else {
      assert body[k..] == variant;
    }
  }

  /** Reading a file back by its ASCII name constructs the same object. */
  lemma FromAsciiNameIsLoad(store: Store, character: string, variant: string)
    requires |character| == 1 && '\n' !in variant
    ensures FromFilename(store, AsciiName(character, variant).value) == Load(store, character, Some(variant))
  {
    AsciiNameRoundTrip(character, variant);
  }

  /**
   * Whatever name an object was read back from, it holds the text of the
   * file under its own ASCII name, and reading that name back builds the
   * same object: a loosely written name only ever stands for a canonical one.
   */
  lemma FromFilenameCanonical(store: Store, name: string)
    requires FromFilename(store, name).Success?
    ensures var k := FromFilename(store, name).value;
            AsciiName(k.character, k.variant).Success? &&
            Open(store, AsciiName(k.character, k.variant).value) == Readable(k.svg) &&
            FromFilename(store, AsciiName(k.character, k.variant).value) == FromFilename(store, name)
  {
    var k := FromFilename(store, name).value;
    FromAsciiNameIsLoad(store, k.character, k.variant);
  }

  /**
   * Different keys live in different files: the ASCII name determines the
   * character and the variant (so a variant such as `Kaisho` never shares a
   * file with the base character).
   */
  lemma AsciiNameInjective(c1: string, v1: string, c2: string, v2: string)
    requires AsciiName(c1, v1).Success? && AsciiName(c1, v1) == AsciiName(c2, v2)
    ensures c1 == c2 && v1 == v2
  {
    AsciiNameShape(c1, v1);
    AsciiNameShape(c2, v2);
    assert c1[0] as int == c2[0] as int;
    assert c1 == [c1[0]] && c2 == [c2[0]];
    VariantSuffixInjective(v1, v2);
  }

  lemma VariantSuffixInjective(v1: string, v2: string)
    requires VariantSuffix(v1) == VariantSuffix(v2)
    ensures v1 == v2
  {
    var s := VariantSuffix(v1);
    if v1 != "" && v2 != "" {
      assert v1 == s[1..|s| - 4] == v2;
    }
  }

  /** The glyph scheme identifies a one-code-point key just as well. */
  lemma DisplayNameInjective(c1: string, v1: string, c2: string, v2: string)
    requires |c1| == 1 && |c2| == 1 && DisplayName(c1, v1) == DisplayName(c2, v2)
    ensures c1 == c2 && v1 == v2
  {
    VariantSuffixInjective(v1, v2);
  }

  /**
   * The two schemes are kept consistent: after the character part (hex
   * digits or glyph) both names are the same variant suffix.
   */
  lemma NamesShareSuffix(character: string, variant: string)
    requires |character| == 1
    ensures AsciiName(character, variant).Success?
    ensures var a := AsciiName(character, variant).value;
            a[HexRun(a)..] == DisplayName(character, variant)[1..]
  {
    AsciiNameShape(character, variant);
  }

  /**
   * The parser's domain: a name `_create_from_filename` accepts starts with a
   * hex digit and ends, before an optional final newline, with a character
   * other than a newline and `svg`. Conversely a match whose name starts with
   * a digit that is not taken by `.svg` gets past `int(digits, 16)`: only
   * `chr` can still reject it.
   */
  lemma ParseDomain(name: string)
    ensures ParseFilename(name).Success? ==>
              var e := MatchEnd(name);
              e >= 5 && IsHexDigit(name[0]) && SvgAt(name, e) && name[e - 4] != '\n'
    ensures MatchFilename(name).Some? && MatchEnd(name) > 4 && IsHexDigit(name[0]) ==>
              ParseFilename(name).Success? || ParseFilename(name).error.InvalidCodePoint?
  {
    if MatchFilename(name).Some? {
      MatchFilenameShape(name);
      var e := MatchEnd(name);
      var body := name[..e - 4];
      assert name[..e - 3] == body + [name[e - 4]];
      var digits := MatchFilename(name).value.0;
      if IsHexDigit(name[0]) && e > 4 {
        assert body[0] == name[0];
        assert |digits| > 0;
      }
      if |digits| > 0 {
        assert name[0] == body[0] == digits[0];
      }
    }
  }

  /** Doctests of `ascii_filename` and `character_filename` for 漢 (U+6F22). */
  lemma NameExamples()
    ensures AsciiName("\U{6f22}", "") == Success("06f22.svg")
    ensures DisplayName("\U{6f22}", "") == "\U{6f22}.svg"
  {
    assert HexDigits(0, 1) == "0";
    assert HexDigits(6, 2) == "06";
    assert HexDigits(0x6f, 3) == "06f";
    assert HexDigits(0x6f2, 4) == "06f2";
    assert Format05x(0x6f22) == "06f22";
    assert "\U{6f22}"[0] as int == 0x6f22;
    assert AsciiName("\U{6f22}", "") == Success("06f22" + VariantSuffix(""));
    assert VariantSuffix("") == ".svg";
    assert "06f22" + ".svg" == "06f22.svg";
  }

  lemma AsciiNameOfA()
    ensures Format05x(0x61) == "00061"
    ensures AsciiName("a", "") == Success("00061.svg")
  {
    assert HexDigits(0, 1) == "0";
    assert HexDigits(0, 2) == "00";
    assert HexDigits(0, 3) == "000";
    assert HexDigits(6, 4) == "0006";
    assert Format05x(0x61) == "00061";
    assert AsciiName("a", "") == Success("00061" + VariantSuffix(""));
    assert VariantSuffix("") == ".svg";
    assert "00061" + ".svg" == "00061.svg";
  }

  lemma AsciiNameOfEl()
    ensures AsciiName("\U{041b}", "") == Success("0041b.svg")
  {
    assert HexDigits(0, 1) == "0";
    assert HexDigits(0, 2) == "00";
    assert HexDigits(4, 3) == "004";
    assert HexDigits(0x41, 4) == "0041";
    assert Format05x(0x41b) == "0041b";
    assert "\U{041b}"[0] as int == 0x41b;
    assert AsciiName("\U{041b}", "") == Success("0041b" + VariantSuffix(""));
    assert VariantSuffix("") == ".svg";
    assert "0041b" + ".svg" == "0041b.svg";
  }

  /** Doctest of the constructor: Л (U+041B) has no file and is reported with its arguments. */
  lemma NotFoundExample(store: Store)
    requires "0041b.svg" !in store
    ensures Load(store, "\U{041b}", Some("")) == Failure(InvalidCharacterError("\U{041b}", Some("")))
  {
    AsciiNameOfEl();
    assert Open(store, "0041b.svg") == Unreadable(FILE_NOT_FOUND);
  }

  /** Doctest of `_create_from_filename`: `00061.svg` is the character `a`. */
  lemma ParseExample()
    ensures ParseFilename("00061.svg") == Success(("a", ""))
  {
    AsciiNameOfA();
    AsciiNameRoundTrip("a", "");
  }

  /**
   * The reverse parser is looser than the forward format: `61.svg`,
   * `00061xsvg` and `00061.svg` followed by a newline all read as `a` too,
   * and a file listed under such a name is then looked up as `00061.svg`.
   */
  lemma LooseParseShortDigits(store: Store)
    requires "00061.svg" !in store
    ensures ParseFilename("61.svg") == Success(("a", ""))
    ensures FromFilename(store, "61.svg") == Failure(InvalidCharacterError("a", Some("")))
  {
    AsciiNameOfA();
    MatchDigitsAndSuffix("61", "");
    assert "61" + VariantSuffix("") == "61.svg";
    assert HexValue("61") == 0x61 by {
      assert "61"[..1] == "6";
    }
    assert ParseFilename("61.svg") == Success(([0x61 as char], ""));
  }

  /** The unescaped `.` accepts any character before `svg`. */
  lemma LooseParseAnyDot()
    ensures ParseFilename("00061xsvg") == Success(("a", ""))
  {
    AsciiNameOfA();
    AsciiNameRoundTrip("a", "");
    MatchIgnoresDot("00061", 'x');
    assert "00061" + ['x'] + "svg" == "00061xsvg";
    assert "00061" + ".svg" == "00061.svg";
  }

  /** `$` also matches before a final newline. */
  lemma LooseParseFinalNewline()
    ensures ParseFilename("00061.svg\n") == Success(("a", ""))
  {
    AsciiNameOfA();
    AsciiNameRoundTrip("a", "");
    MatchIgnoresFinalNewline("00061.svg");
    assert "00061.svg" + "\n" == "00061.svg\n";
  }

  /**
   * A KanjiVG object. After construction its fields hold the character, the
   * variant (never `None`) and the SVG text read from the corpus.
   */
  class KanjiVG {
    var character: string
    var variant: string
    var svg: string

    /** Lines that set the fields before the file is read. */
    constructor Init(character: string, variant: Option<string>)
      ensures this.character == character && this.variant == NormalizeVariant(variant)
      ensures svg == ""
    {
      this.character := character;
      this.variant := "";
      if variant.Some? {
        this.variant := variant.value;
      }
      svg := "";
    }

    function View(): Kanji
      reads this
    {
      Kanji(character, variant, svg)
    }

    /** `KanjiVG(character, variant)`: set the fields, then read the file. */
    static method Create(store: Store, character: string, variant: Option<string>)
      returns (r: Result<KanjiVG, Error>)
      ensures r.Success? <==> Load(store, character, variant).Success?
      ensures r.Success? ==> fresh(r.value) && r.value.View() == Load(store, character, variant).value
      ensures r.Failure? ==> r.error == Load(store, character, variant).error
    {
      var k := new KanjiVG.Init(character, variant);
      var name := AsciiName(k.character, k.variant);
      if name.Failure? {
        return Failure(name.error);
      }
      match Open(store, name.value)
      case Readable(text) =>
        k.svg := text;
        r := Success(k);
      case Unreadable(errno) =>
        if errno == FILE_NOT_FOUND {
          r := Failure(InvalidCharacterError(character, variant));
        } else {
          r := Failure(IOError(errno));
        }
    }

    /** `KanjiVG._create_from_filename(name)`. */
    static method CreateFromFilename(store: Store, name: string) returns (r: Result<KanjiVG, Error>)
      ensures r.Success? <==> FromFilename(store, name).Success?
      ensures r.Success? ==> fresh(r.value) && r.value.View() == FromFilename(store, name).value
      ensures r.Failure? ==> r.error == FromFilename(store, name).error
    {
      var parsed := ParseFilename(name);
      if parsed.Failure? {
        return Failure(parsed.error);
      }
      r := Create(store, parsed.value.0, Some(parsed.value.1));
    }

    /**
     * `KanjiVG.get_all()`: one new object per listed file name, built in
     * listing order; the first name that fails aborts the enumeration.
     */
    static method GetAll(store: Store, listing: seq<string>) returns (r: Result<seq<KanjiVG>, Error>)
      ensures r.Success? ==>
                |r.value| == |listing| &&
                (forall i {:trigger FromFilename(store, listing[i])} :: 0 <= i < |listing| ==>
                   FromFilename(store, listing[i]) == Success(r.value[i].View())) &&
                (forall i :: 0 <= i < |listing| ==> fresh(r.value[i])) &&
                (forall i, j :: 0 <= i < j < |r.value| ==> r.value[i] != r.value[j])
      ensures r.Failure? ==>
                exists i {:trigger FromFilename(store, listing[i])} :: 0 <= i < |listing| && FromFilename(store, listing[i]) == Failure(r.error) &&
                  forall j {:trigger FromFilename(store, listing[j])} :: 0 <= j < i ==> FromFilename(store, listing[j]).Success?
    {
      var kanji: seq<KanjiVG> := [];
      for i := 0 to |listing|
        invariant |kanji| == i
        invariant forall j {:trigger FromFilename(store, listing[j])} :: 0 <= j < i ==>
                    FromFilename(store, listing[j]) == Success(kanji[j].View())
        invariant forall j :: 0 <= j < i ==> fresh(kanji[j])
        invariant forall j, l :: 0 <= j < l < i ==> kanji[j] != kanji[l]
      {
        var k := CreateFromFilename(store, listing[i]);
        if k.Failure? {
          return Failure(k.error);
        }
        kanji := kanji + [k.value];
      }
      r := Success(kanji);
    }
  }

  /**
   * A corpus whose every file carries the canonical ASCII name of a key and
   * is readable enumerates without error, each object holding its own file's
   * text.
   */
  lemma {:induction false} CanonicalCorpusLoads(store: Store, keys: seq<(string, string)>, listing: seq<string>)
    requires |keys| == |listing|
    requires forall i :: 0 <= i < |keys| ==> |keys[i].0| == 1 && '\n' !in keys[i].1
    requires forall i :: 0 <= i < |keys| ==> AsciiName(keys[i].0, keys[i].1) == Success(listing[i])
    requires forall i :: 0 <= i < |listing| ==> listing[i] in store && store[listing[i]].Readable?
    ensures forall i :: 0 <= i < |listing| ==>
              FromFilename(store, listing[i]) ==
              Success(Kanji(keys[i].0, keys[i].1, store[listing[i]].text))
  {
    forall i | 0 <= i < |listing|
      ensures FromFilename(store, listing[i]) == Success(Kanji(keys[i].0, keys[i].1, store[listing[i]].text))
    {
      FromAsciiNameIsLoad(store, keys[i].0, keys[i].1);
    }
  }
}
