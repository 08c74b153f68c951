/**
 * The field and upload validators of the datatracker (ietf/utils/validators.py).
 *
 * Each Python validator either returns normally or raises `ValidationError`;
 * here each is a function returning `Pass`/`Fail(error)`, or `Ok(value)`/
 * `Err(error)` for the two validators that return a value.  The collaborators
 * whose code lies outside this file are parameters: the regular-expression
 * compiler, the MIME sniffer, the HTML element selector and Django's URL and
 * e-mail validators.  An uploaded file is represented by its size or its
 * content, the upload limit by a parameter.
 */
module Validators {

  import opened Results
  import opened PyStrings
  import opened PosixPath
  import opened UrlParse

  /** Why a validator rejected its input. */
  datatype Error =
    | ControlCharacters
    | InvalidRegex(pattern: string, compilerMessage: string)
    | SuspiciousDashStar
    | FileTooLarge(limit: int, size: nat)
    | UnexpectedMimeType(found: string, expected: seq<string>)
    | UnexpectedExtension(found: string, expected: seq<string>)
    | HtmlFrames
    | InvalidUrl
    | InvalidEmail
    | NotGithubUrl
    | UnknownResourceType(typeName: string)
      /** Not a `ValidationError`: the `ValueError` that `urlparse` raises escapes the validator. */
    | UrlParseError(message: string)

  /** The result of a validator that returns nothing. */
  datatype Outcome = Pass | Fail(error: Error)

  // ---------------------------------------------------------------------
  // validate_no_control_chars: a RegexValidator for "^[^\x00-\x1f]*$",
  // applied with re.search.
  // ---------------------------------------------------------------------

  /** `c` belongs to the class `[\x00-\x1f]`. */
  predicate IsControl(c: char)
  {
    c as int < 0x20
  }

  predicate ControlFree(t: string)
  {
    forall i :: 0 <= i < |t| ==> !IsControl(t[i])
  }

  /** Where `$` (without MULTILINE) matches: at the end, or before a final newline. */
  predicate DollarAt(s: string, k: int)
  {
    k == |s| || (k == |s| - 1 && 0 <= k && s[k] == '\n')
  }

  /**
   * What the pattern denotes: a match starts at 0 (`^`), covers a control-free
   * prefix (`[^\x00-\x1f]*`) and ends where `$` matches.
   */
  ghost predicate PatternMatches(s: string)
  {
    exists k :: 0 <= k <= |s| && ControlFree(s[..k]) && DollarAt(s, k)
  }

  /** The greedy star: the length of the longest control-free prefix. */
  function GreedyRun(s: string): (n: nat)
    ensures n <= |s|
    ensures ControlFree(s[..n])
    ensures n < |s| ==> IsControl(s[n])
    decreases |s|
  {
    if |s| == 0 || IsControl(s[0]) then 0
    else
      var m := GreedyRun(s[1..]);
      assert s[..1 + m] == [s[0]] + s[1..][..m];
      1 + m
  }

  /** The backtracking engine: give back characters of the star until `$` matches. */
  function Backtrack(s: string, k: nat): bool
    requires k <= |s|
    decreases k
  {
    if DollarAt(s, k) then true
    else if k == 0 then false
    else Backtrack(s, k - 1)
  }

  /** `re.search("^[^\x00-\x1f]*$", s)` succeeds. */
  function SearchNoControl(s: string): bool
  {
    Backtrack(s, GreedyRun(s))
  }

  lemma {:induction false} BacktrackIff(s: string, k: nat)
    requires k <= |s|
    ensures Backtrack(s, k) <==> exists j :: 0 <= j <= k && DollarAt(s, j)
    decreases k
  {
    if !DollarAt(s, k) && k > 0 {
      BacktrackIff(s, k - 1);
    }
  }

  /** A control-free prefix is never longer than the greedy run. */
  lemma {:induction false} ControlFreePrefixBound(s: string, k: nat)
    requires k <= |s| && ControlFree(s[..k])
    ensures k <= GreedyRun(s)
    decreases k
  {
    if k > 0 {
      assert s[..k][0] == s[0];
      assert s[1..][..k - 1] == s[..k][1..];
      ControlFreePrefixBound(s[1..], k - 1);
    }
  }

  /** The greedy-then-backtrack search decides exactly the language of the pattern. */
  lemma SearchIsPattern(s: string)
    ensures SearchNoControl(s) <==> PatternMatches(s)
  {
    var g := GreedyRun(s);
    BacktrackIff(s, g);
    if SearchNoControl(s) {
      var j :| 0 <= j <= g && DollarAt(s, j);
      assert s[..j] == s[..g][..j];
    }
    if PatternMatches(s) {
      var k :| 0 <= k <= |s| && ControlFree(s[..k]) && DollarAt(s, k);
      ControlFreePrefixBound(s, k);
    }
  }

  /** The pattern accepts control-free text, optionally followed by one newline. */
  lemma PatternClosedForm(s: string)
    ensures PatternMatches(s) <==>
      ControlFree(s) || (|s| > 0 && s[|s| - 1] == '\n' && ControlFree(s[..|s| - 1]))
  {
    if ControlFree(s) {
      assert s[..|s|] == s && DollarAt(s, |s|);
    }
    if |s| > 0 && s[|s| - 1] == '\n' && ControlFree(s[..|s| - 1]) {
      assert DollarAt(s, |s| - 1);
    }
    if PatternMatches(s) {
      var k :| 0 <= k <= |s| && ControlFree(s[..k]) && DollarAt(s, k);
      assert k == |s| ==> s[..k] == s;
    }
  }

  function ValidateNoControlChars(value: string): (r: Outcome)
    ensures r == Pass <==>
      ControlFree(value) || (|value| > 0 && value[|value| - 1] == '\n' && ControlFree(value[..|value| - 1]))
    ensures r != Pass ==> r == Fail(ControlCharacters)
  {
    SearchIsPattern(value);
    PatternClosedForm(value);
    if SearchNoControl(value) then Pass else Fail(ControlCharacters)
  }

  /** A newline anywhere but in the last position is rejected, so is a second trailing one. */
  lemma InnerNewlineRejected(s: string, i: nat)
    requires i < |s| - 1 && s[i] == '\n'
    ensures ValidateNoControlChars(s) == Fail(ControlCharacters)
  {
    assert s[..|s| - 1][i] == s[i];
  }

  /**
   * As written, the validator lets one control character through: a final
   * newline, because `$` also matches just before it.
   */
  lemma TrailingNewlineAccepted(t: string)
    requires ControlFree(t)
    ensures ValidateNoControlChars(t + "\n") == Pass
    ensures !ControlFree(t + "\n")
  {
    assert (t + "\n")[..|t|] == t;
    assert (t + "\n")[|t|] == '\n';
  }

  /**
   * The check the error message describes, `^[^\x00-\x1f]*\Z`: the greedy run
   * must reach the very end of the text.
   */
  function ValidateNoControlCharsStrict(value: string): (r: Outcome)
    ensures r == Pass <==> ControlFree(value)
    ensures r != Pass ==> r == Fail(ControlCharacters)
  {
    GreedyRunReachesEnd(value);
    if GreedyRun(value) == |value| then Pass else Fail(ControlCharacters)
  }

  /** The greedy run covers the whole text exactly when the text is control-free. */
  lemma GreedyRunReachesEnd(s: string)
    ensures GreedyRun(s) == |s| <==> ControlFree(s)
  {
    assert s[..|s|] == s;
    if ControlFree(s) {
      ControlFreePrefixBound(s, |s|);
    }
  }

  // ---------------------------------------------------------------------
  // RegexStringValidator
  // ---------------------------------------------------------------------

  /** What `re.compile(value)` does: return, or raise an exception with a message. */
  datatype Compilation = Compiled | CompileError(message: string)

  const DashStar: string := "-*"

  /** `RegexStringValidator.__call__`: compile first, then refuse "-*". */
  function ValidateRegexString(value: string, compile: string -> Compilation): (r: Outcome)
    ensures r == Pass <==> compile(value).Compiled? && !exists i :: OccursAt(value, DashStar, i)
    ensures compile(value).CompileError? ==> r == Fail(InvalidRegex(value, compile(value).message))
    ensures compile(value).Compiled? && (exists i :: OccursAt(value, DashStar, i)) ==> r == Fail(SuspiciousDashStar)
  {
    ContainsIff(value, DashStar);
    match compile(value)
    case CompileError(e) => Fail(InvalidRegex(value, e))
    case Compiled => if Contains(value, DashStar) then Fail(SuspiciousDashStar) else Pass
  }

  /** A Python object, seen through the classes of its method resolution order. */
  datatype PyObject = PyObject(mro: seq<string>)

  const RegexStringValidatorClass: string := "RegexStringValidator"

  /** `isinstance(o, cls)`. */
  predicate IsInstance(o: PyObject, cls: string)
  {
    cls in o.mro
  }

  /** The validator has no state, so all its instances are alike. */
  datatype RegexStringValidator = RegexStringValidator {

    function AsObject(): (o: PyObject)
      ensures IsInstance(o, RegexStringValidatorClass)
    {
      PyObject([RegexStringValidatorClass, "object"])
    }

    /** `__eq__`: equal to any instance of the class, subclasses included. */
    function Eq(other: PyObject): (r: bool)
      ensures r <==> exists i :: 0 <= i < |other.mro| && other.mro[i] == RegexStringValidatorClass
    {
      IsInstance(other, RegexStringValidatorClass)
    }

    /** `__ne__`: `not (self == other)`. */
    function Ne(other: PyObject): (r: bool)
      ensures r <==> !IsInstance(other, RegexStringValidatorClass)
    {
      !Eq(other)
    }
  }

  /** Any two validators compare equal, and `!=` is the negation of `==`. */
  lemma ValidatorsAllEqual(a: RegexStringValidator, b: RegexStringValidator, o: PyObject)
    ensures a.Eq(b.AsObject()) && !a.Ne(b.AsObject())
    ensures a.Ne(o) <==> !a.Eq(o)
  {
  }

  /** Nothing outside the class hierarchy compares equal. */
  lemma UnrelatedObjectsUnequal(v: RegexStringValidator, o: PyObject)
    requires !IsInstance(o, RegexStringValidatorClass)
    ensures !v.Eq(o) && v.Ne(o)
  {
  }

  // ---------------------------------------------------------------------
  // validate_file_size
  // ---------------------------------------------------------------------

  /** `file._size > settings.SECR_MAX_UPLOAD_SIZE` rejects. */
  function ValidateFileSize(size: nat, maxUploadSize: int): (r: Outcome)
    ensures r == Pass <==> size <= maxUploadSize
    ensures r != Pass ==> r == Fail(FileTooLarge(maxUploadSize, size))
  {
    if size > maxUploadSize then Fail(FileTooLarge(maxUploadSize, size)) else Pass
  }

  /** Shrinking a file that passes keeps it passing. */
  lemma FileSizeMonotone(smaller: nat, size: nat, maxUploadSize: int)
    requires smaller <= size && ValidateFileSize(size, maxUploadSize) == Pass
    ensures ValidateFileSize(smaller, maxUploadSize) == Pass
  {
  }

  // ---------------------------------------------------------------------
  // validate_mime_type and its 'virtual' work-around
  // ---------------------------------------------------------------------

  type byte = bv8

  /** b"virtual" */
  const Virtual: seq<byte> := [0x76, 0x69, 0x72, 0x74, 0x75, 0x61, 0x6C]
  /** b" virtual" */
  const SpacedVirtual: seq<byte> := [0x20] + Virtual
  const Newline: byte := 0x0A
  const Space: byte := 0x20
  const CppMimeType: string := "text/x-c++"

  /** `\s` in a bytes pattern: space, tab, newline, vertical tab, form feed, carriage return. */
  predicate IsRegexSpace(b: byte)
  {
    b == 0x20 || (0x09 <= b <= 0x0D)
  }

  /** Where `^` matches under MULTILINE: at the start and after each newline. */
  predicate LineStart(b: seq<byte>, i: int)
  {
    i == 0 || (0 < i <= |b| && b[i - 1] == Newline)
  }

  /** `(?m)^virtual\s` matches at index `i`. */
  predicate VirtualLineAt(b: seq<byte>, i: int)
  {
    LineStart(b, i) && OccursAt(b, Virtual, i) && i + |Virtual| < |b| && IsRegexSpace(b[i + |Virtual|])
  }

  /** `re.search(br'(?m)^virtual\s', b[i..])` tried at each position from `i` on. */
  function SearchVirtualLine(b: seq<byte>, i: nat): bool
    requires i <= |b|
    decreases |b| - i
  {
    if i == |b| then false
    else if VirtualLineAt(b, i) then true
    else SearchVirtualLine(b, i + 1)
  }

  lemma {:induction false} SearchVirtualLineIff(b: seq<byte>, i: nat)
    requires i <= |b|
    ensures SearchVirtualLine(b, i) <==> exists j :: i <= j && VirtualLineAt(b, j)
    decreases |b| - i
  {
    if i < |b| && !VirtualLineAt(b, i) {
      SearchVirtualLineIff(b, i + 1);
    }
  }

  /** `raw.replace(b'virtual', b' virtual')` */
  function RewriteVirtual(raw: seq<byte>): seq<byte>
  {
    Replace(raw, Virtual, SpacedVirtual)
  }

  /** The rewrite grows the buffer by one byte per occurrence of "virtual". */
  lemma RewriteVirtualLength(raw: seq<byte>)
    ensures |RewriteVirtual(raw)| == |raw| + Occurrences(raw, Virtual)
  {
    ReplaceLength(raw, Virtual, SpacedVirtual);
    CountIsOccurrences(raw, Virtual);
  }

  /** Up to the first inserted space, the rewritten buffer is the original one. */
  lemma {:induction false} RewritePrefix(t: seq<byte>, k: nat)
    requires k <= |RewriteVirtual(t)|
    requires forall i :: 0 <= i < k ==> RewriteVirtual(t)[i] != Space
    ensures k <= |t| && RewriteVirtual(t)[..k] == t[..k]
    decreases k
  {
    if k > 0 {
      assert |t| > 0;
      assert RewriteVirtual(t)[0] != Space;
      assert !OccursAt(t, Virtual, 0);
      var rest := RewriteVirtual(t[1..]);
      assert RewriteVirtual(t) == [t[0]] + rest;
      forall i | 0 <= i < k - 1 ensures rest[i] != Space {
        assert rest[i] == RewriteVirtual(t)[i + 1];
      }
      RewritePrefix(t[1..], k - 1);
      assert RewriteVirtual(t)[..k] == [t[0]] + rest[..k - 1];
      assert t[..k] == [t[0]] + t[1..][..k - 1];
    }
  }

  /** A buffer that does not start with "virtual" is not rewritten into one that does. */
  lemma RewriteKeepsStart(s: seq<byte>)
    requires !OccursAt(s, Virtual, 0)
    ensures !OccursAt(RewriteVirtual(s), Virtual, 0)
  {
    var out := RewriteVirtual(s);
    if OccursAt(out, Virtual, 0) {
      forall i | 0 <= i < |Virtual| ensures out[i] != Space {
        assert out[i] == out[0..|Virtual|][i];
      }
      RewritePrefix(s, |Virtual|);
    }
  }

  /** Every "virtual" of the rewritten buffer comes right after a space. */
  lemma {:induction false} VirtualPrecededBySpace(s: seq<byte>, j: int)
    requires OccursAt(RewriteVirtual(s), Virtual, j)
    ensures j > 0 && RewriteVirtual(s)[j - 1] == Space
    decreases |s|
  {
    var out := RewriteVirtual(s);
    if |s| > 0 {
      if OccursAt(s, Virtual, 0) {
        var rest := RewriteVirtual(s[|Virtual|..]);
        assert out == SpacedVirtual + rest;
        assert out[j] == 0x76 by {
          assert out[j..j + |Virtual|][0] == out[j];
        }
        if j >= 8 {
          assert out[8..] == rest;
          OccursAtSuffix(out, Virtual, 8, j - 8);
          VirtualPrecededBySpace(s[|Virtual|..], j - 8);
          assert out[j - 1] == rest[j - 9];
        } else {
          assert out[j] == SpacedVirtual[j];
        }
      } else {
        var rest := RewriteVirtual(s[1..]);
        assert out == [s[0]] + rest;
        RewriteKeepsStart(s);
        assert out[1..] == rest;
        OccursAtTail(out, Virtual, j - 1);
        VirtualPrecededBySpace(s[1..], j - 1);
        assert out[j - 1] == rest[j - 2];
      }
    }
  }

  /** After the rewrite no line begins with "virtual", so the work-around cannot fire again. */
  lemma RewriteLeavesNoVirtualLine(raw: seq<byte>)
    ensures forall i :: LineStart(RewriteVirtual(raw), i) ==> !OccursAt(RewriteVirtual(raw), Virtual, i)
    ensures !SearchVirtualLine(RewriteVirtual(raw), 0)
  {
    var out := RewriteVirtual(raw);
    forall i | LineStart(out, i) ensures !OccursAt(out, Virtual, i) {
      if OccursAt(out, Virtual, i) {
        VirtualPrecededBySpace(raw, i);
      }
    }
    SearchVirtualLineIff(out, 0);
  }

  /** The sniffer's verdict: `get_mime_type` returns a MIME type and an encoding. */
  datatype MimeGuess = MimeGuess(mimeType: string, encoding: string)

  /** The buffers that `validate_mime_type` hands to the sniffer, in call order. */
  function SniffedBuffers(raw: seq<byte>, sniff: seq<byte> -> MimeGuess): (bufs: seq<seq<byte>>)
    ensures 1 <= |bufs| <= 2 && bufs[0] == raw
    ensures |bufs| == 2 <==> sniff(raw).mimeType == CppMimeType && exists i :: VirtualLineAt(raw, i)
    ensures |bufs| == 2 ==> bufs[1] == RewriteVirtual(raw)
    ensures |bufs| == 2 ==> |bufs[1]| == |raw| + Occurrences(raw, Virtual)
    ensures |bufs| == 2 ==> forall i :: LineStart(bufs[1], i) ==> !OccursAt(bufs[1], Virtual, i)
  {
    SearchVirtualLineIff(raw, 0);
    RewriteVirtualLength(raw);
    RewriteLeavesNoVirtualLine(raw);
    if sniff(raw).mimeType == CppMimeType && SearchVirtualLine(raw, 0) then [raw, RewriteVirtual(raw)]
    else [raw]
  }

  /** The guess `validate_mime_type` settles on: that of the last buffer sniffed. */
  function FinalGuess(raw: seq<byte>, sniff: seq<byte> -> MimeGuess): MimeGuess
  {
    var bufs := SniffedBuffers(raw, sniff);
    sniff(bufs[|bufs| - 1])
  }

  /**
   * `validate_mime_type(file, valid)` on the file's content: an empty
   * allow-list accepts any type; the (possibly re-sniffed) guess is returned.
   */
  function ValidateMimeType(raw: seq<byte>, valid: seq<string>, sniff: seq<byte> -> MimeGuess)
    : (r: Result<MimeGuess, Error>)
    ensures var g := if sniff(raw).mimeType == CppMimeType && (exists i :: VirtualLineAt(raw, i))
                     then sniff(RewriteVirtual(raw)) else sniff(raw);
            && (r.Ok? <==> |valid| == 0 || g.mimeType in valid)
            && (r.Ok? ==> r.value == g)
            && (r.Err? ==> r.error == UnexpectedMimeType(g.mimeType, valid))
  {
    var g := FinalGuess(raw, sniff);
    if |valid| > 0 && g.mimeType !in valid then Err(UnexpectedMimeType(g.mimeType, valid)) else Ok(g)
  }

  /** An empty allow-list switches the check off. */
  lemma EmptyAllowListAcceptsAll(raw: seq<byte>, sniff: seq<byte> -> MimeGuess)
    ensures ValidateMimeType(raw, [], sniff) == Ok(FinalGuess(raw, sniff))
  {
  }

  /** Unless the first guess is C++ source, the sniffer is consulted once and its guess decides. */
  lemma NonCppSniffedOnce(raw: seq<byte>, valid: seq<string>, sniff: seq<byte> -> MimeGuess)
    requires sniff(raw).mimeType != CppMimeType
    ensures SniffedBuffers(raw, sniff) == [raw]
    ensures ValidateMimeType(raw, valid, sniff).Ok? <==> |valid| == 0 || sniff(raw).mimeType in valid
  {
  }

  // ---------------------------------------------------------------------
  // validate_file_extension
  // ---------------------------------------------------------------------

  /** `validate_file_extension(file, valid)` on the file's name. */
  function ValidateFileExtension(name: string, valid: seq<string>): (r: Result<string, Error>)
    ensures r.Ok? <==> Lower(SplitExt(name).ext) in valid
    ensures r.Ok? ==> r.value == SplitExt(name).ext
    ensures r.Err? ==> r.error == UnexpectedExtension(SplitExt(name).ext, valid)
  {
    var ext := SplitExt(name).ext;
    if Lower(ext) !in valid then Err(UnexpectedExtension(ext, valid)) else Ok(ext)
  }

  /**
   * An accepted extension is a suffix of the name, in its original case, that
   * is empty or one dot followed by neither dot nor slash.
   */
  lemma AcceptedExtensionShape(name: string, valid: seq<string>)
    requires ValidateFileExtension(name, valid).Ok?
    ensures var ext := ValidateFileExtension(name, valid).value;
            && |ext| <= |name| && name[|name| - |ext|..] == ext
            && (ext == [] <==> !HasExtension(name))
            && (ext != [] ==> ext[0] == '.' && forall j :: 1 <= j < |ext| ==> ext[j] != '.' && ext[j] != '/')
  {
    var sp := SplitExt(name);
    assert name[|sp.root|..] == sp.ext;
    SplitExtFindsExtension(name);
  }

  /** The check ignores the case of the name: lowering the name changes only the case of the result. */
  lemma ExtensionCaseInsensitive(name: string, valid: seq<string>)
    ensures ValidateFileExtension(Lower(name), valid).Ok? == ValidateFileExtension(name, valid).Ok?
    ensures ValidateFileExtension(name, valid).Ok? ==>
              ValidateFileExtension(Lower(name), valid).value == Lower(ValidateFileExtension(name, valid).value)
  {
    SplitExtLower(name);
    LowerIdempotent(SplitExt(name).ext);
  }

  // ---------------------------------------------------------------------
  // validate_no_html_frame
  // ---------------------------------------------------------------------

  /**
   * `validate_no_html_frame(file)` on the file's content; `select(raw, tag)`
   * is the number of elements PyQuery finds for `tag` in the parsed content.
   */
  function ValidateNoHtmlFrame(raw: seq<byte>, select: (seq<byte>, string) -> nat): (r: Outcome)
    ensures r == Pass <==> select(raw, "frameset") == 0 && select(raw, "frame") == 0 && select(raw, "iframe") == 0
    ensures r != Pass ==> r == Fail(HtmlFrames)
  {
    if select(raw, "frameset") > 0 || select(raw, "frame") > 0 || select(raw, "iframe") > 0 then Fail(HtmlFrames)
    else Pass
  }

  // ---------------------------------------------------------------------
  // validate_external_resource_value
  // ---------------------------------------------------------------------

  /** The `type` of a resource name: its slug and its display name. */
  datatype ResourceType = ResourceType(slug: string, name: string)

  /** A resource name: its own slug and its type. */
  datatype ResourceName = ResourceName(slug: string, rtype: ResourceType)

  /**
   * Django's validators, as predicates: `URLValidator()`,
   * `URLValidator(schemes=['http','https'])` and `EmailValidator()`.
   */
  datatype ValueCheckers = ValueCheckers(url: string -> bool, httpUrl: string -> bool, email: string -> bool)

  predicate IsGithubSlug(slug: string)
  {
    slug == "github_org" || slug == "github_repo"
  }

  predicate IsKnownType(slug: string)
  {
    slug == "url" || slug == "email" || slug == "string"
  }

  const GithubHost: string := "github.com"

  /** The network location, lowered, is exactly "github.com": no port, no user information. */
  predicate HasGithubNetloc(value: string)
  {
    Netloc(value).Ok? && Lower(Netloc(value).value) == GithubHost
  }

  function ValidateExternalResourceValue(name: ResourceName, value: string, checks: ValueCheckers): (r: Outcome)
    ensures name.rtype.slug == "string" ==> r == Pass
    ensures !IsKnownType(name.rtype.slug) ==> r == Fail(UnknownResourceType(name.rtype.name))
    ensures name.rtype.slug == "email" ==> (r == Pass <==> checks.email(value))
    ensures name.rtype.slug == "email" && r != Pass ==> r == Fail(InvalidEmail)
    ensures name.rtype.slug == "url" && name.slug == "jabber_room" ==> r == Pass
    ensures name.rtype.slug == "url" && IsGithubSlug(name.slug) ==>
              (r == Pass <==> checks.httpUrl(value) && HasGithubNetloc(value))
    ensures name.rtype.slug == "url" && IsGithubSlug(name.slug) && !checks.httpUrl(value) ==> r == Fail(InvalidUrl)
    ensures name.rtype.slug == "url" && IsGithubSlug(name.slug) && checks.httpUrl(value) && Netloc(value).Err? ==>
              r == Fail(UrlParseError("Invalid IPv6 URL"))
    ensures name.rtype.slug == "url" && IsGithubSlug(name.slug) && checks.httpUrl(value) && Netloc(value).Ok? ==>
              (r != Pass ==> r == Fail(NotGithubUrl))
    ensures name.rtype.slug == "url" && !IsGithubSlug(name.slug) && name.slug != "jabber_room" ==>
              (r == Pass <==> checks.url(value)) && (r != Pass ==> r == Fail(InvalidUrl))
  {
    if name.rtype.slug == "url" then
      if IsGithubSlug(name.slug) then
        if !checks.httpUrl(value) then Fail(InvalidUrl)
        else
          match Netloc(value)
          case Err(message) => Fail(UrlParseError(message))
          case Ok(netloc) => if Lower(netloc) != GithubHost then Fail(NotGithubUrl) else Pass
      else if name.slug == "jabber_room" then Pass
      else if checks.url(value) then Pass
      else Fail(InvalidUrl)
    else if name.rtype.slug == "email" then
      if checks.email(value) then Pass else Fail(InvalidEmail)
    else if name.rtype.slug == "string" then Pass
    else Fail(UnknownResourceType(name.rtype.name))
  }

  /** The host a github resource must name. */
  lemma GithubHostIsPlain()
    ensures forall j :: 0 <= j < |GithubHost| ==> 'a' <= GithubHost[j] <= 'z' || GithubHost[j] == '.'
  {
  }

  /** A port or user information in the network location rules out "github.com". */
  lemma PortOrUserinfoNotGithub(value: string, i: nat)
    requires Netloc(value).Ok? && i < |Netloc(value).value|
    requires Netloc(value).value[i] == ':' || Netloc(value).value[i] == '@'
    ensures !HasGithubNetloc(value)
  {
    var n := Netloc(value).value;
    GithubHostIsPlain();
    assert Lower(n)[i] == n[i];
  }

  /** A port or user information in the network location makes a github URL fail. */
  lemma GithubRejectsPortAndUserinfo(name: ResourceName, value: string, checks: ValueCheckers, i: nat)
    requires name.rtype.slug == "url" && IsGithubSlug(name.slug)
    requires Netloc(value).Ok? && i < |Netloc(value).value|
    requires Netloc(value).value[i] == ':' || Netloc(value).value[i] == '@'
    ensures ValidateExternalResourceValue(name, value, checks) != Pass
  {
    PortOrUserinfoNotGithub(value, i);
  }

  /**
   * For a github name, a valid http(s) URL `scheme://host...` passes exactly
   * when `host` is "github.com" in any letter case ("https://github.com/ietf/ietf"
   * passes, "https://gitlab.com/x" fails with the github message).
   */
  lemma GithubUrlByHost(name: ResourceName, checks: ValueCheckers, scheme: string, host: string, tail: string)
    requires name.rtype.slug == "url" && IsGithubSlug(name.slug)
    requires IsScheme(scheme)
    requires forall j :: 0 <= j < |host| ==> !IsNetlocDelimiter(host[j])
    requires !UnbalancedBrackets(host)
    requires tail == [] || IsNetlocDelimiter(tail[0])
    requires checks.httpUrl(scheme + "://" + host + tail)
    ensures var r := ValidateExternalResourceValue(name, scheme + "://" + host + tail, checks);
            && (r == Pass <==> Lower(host) == GithubHost)
            && (r != Pass ==> r == Fail(NotGithubUrl))
  {
    NetlocOfAuthority(scheme, host, tail);
  }
}
