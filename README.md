# Datatracker field and upload validators, in Dafny

This project models `ietf/utils/validators.py` of the IETF datatracker: the
validators that Django forms and models attach to fields and uploads. They
are `validate_no_control_chars`, the `RegexStringValidator` class,
`validate_file_size`, `validate_mime_type` with its work-around for text
mis-sniffed as C++, `validate_file_extension`, `validate_no_html_frame` and
`validate_external_resource_value`.

Each validator is a pure function. Where Python raises `ValidationError`, the
function returns `Fail(error)`, or `Err(error)` for the two validators that
return a value. `error` names the failure and carries the data the message is
built from. Code outside the file becomes a function-typed parameter:

- `re.compile` becomes `compile: string -> Compilation`;
- `ietf.utils.mime.get_mime_type` becomes `sniff: seq<byte> -> MimeGuess`;
- PyQuery's selection becomes `select: (seq<byte>, string) -> nat`;
- Django's `URLValidator()`, `URLValidator(schemes=['http','https'])` and
  `EmailValidator()` become the three predicates of `ValueCheckers`.

An uploaded file is passed as its size, its content or its name, and the
upload limit as a parameter.

Modules:

- `Results`: the `Result` datatype.
- `PyStrings`: the Python `str`/`bytes` operations the model uses: `in`,
  `find`, `rfind`, `count`, `replace`, and `lower` for ASCII.
- `PosixPath`: `os.path.splitext`.
- `UrlParse`: the `netloc` of `urllib.parse.urlparse`.
- `Validators`: the validators themselves.

Two behaviours of the code are easy to misread:

- `validate_file_extension` returns the extension in its original case: for
  "README.TXT" it returns ".TXT". Only the allow-list test uses the lowered
  form.
- `validate_no_control_chars` lets one trailing newline through, although it
  is a control character (see Findings).

## Model

| member | source | states |
|---|---|---|
| `Validators.ValidateNoControlChars` | ietf/utils/validators.py:23-25 | passes iff the value has no character in 0x00-0x1F, or has none before a single final newline; otherwise fails with the control-character error |
| `Validators.SearchIsPattern` | ietf/utils/validators.py:24 | the greedy-then-backtracking search for `^[^\x00-\x1f]*$` succeeds exactly on the strings the pattern denotes (a control-free prefix ending where `$` can match) |
| `Validators.PatternClosedForm` | ietf/utils/validators.py:24 | the pattern's language is: control-free text, optionally followed by exactly one newline |
| `Validators.InnerNewlineRejected` | ietf/utils/validators.py:23-25 | a newline at any position except the last makes the validator fail, so two trailing newlines fail |
| `Validators.TrailingNewlineAccepted` | ietf/utils/validators.py:23-25 | for every control-free `t`, `t + "\n"` passes although it holds a control character |
| `Validators.ValidateNoControlCharsStrict` | ietf/utils/validators.py:23-25 | corrected check: passes iff the value holds no control character at all |
| `Validators.GreedyRunReachesEnd` | ietf/utils/validators.py:24 | the greedy `[^\x00-\x1f]*` consumes the whole string iff the string is control-free |
| `Validators.ValidateRegexString` | ietf/utils/validators.py:35-49 | a compile failure is reported first, with the pattern and the compiler's message; a compiled value containing `-*` fails with the dash-star error; the value passes iff it compiles and contains no `-*` |
| `PyStrings.ContainsIff` | ietf/utils/validators.py:45 | Python's substring test finds `w` in `s` iff `w` occurs at some index of `s` |
| `Validators.RegexStringValidator.Eq` | ietf/utils/validators.py:51-52 | `==` holds iff the other object's class hierarchy includes `RegexStringValidator` (subclasses included) |
| `Validators.RegexStringValidator.Ne` | ietf/utils/validators.py:54-55 | `!=` holds iff the other object is not an instance of `RegexStringValidator` |
| `Validators.ValidatorsAllEqual` | ietf/utils/validators.py:51-55 | any two `RegexStringValidator`s compare equal and not unequal; `!=` is the negation of `==` for every object |
| `Validators.UnrelatedObjectsUnequal` | ietf/utils/validators.py:51-55 | an object that is not an instance of the class compares unequal and `!=` holds |
| `Validators.ValidateFileSize` | ietf/utils/validators.py:59-61 | passes iff size <= limit (a size equal to the limit passes); the error carries the limit and the size |
| `Validators.FileSizeMonotone` | ietf/utils/validators.py:59-61 | a smaller file than one that passes also passes |
| `Validators.SearchVirtualLineIff` | ietf/utils/validators.py:69 | the search for `(?m)^virtual\s` succeeds iff at some line start (buffer start or after `\n`) "virtual" is followed by a whitespace byte |
| `PyStrings.ReplaceLength` | ietf/utils/validators.py:70 | `replace` changes the length by (len(new) - len(old)) per non-overlapping occurrence counted by `count` |
| `PyStrings.CountIsOccurrences` | ietf/utils/validators.py:70 | for a pattern whose first element does not recur in it (such as "virtual"), `count` equals the number of indices at which it occurs |
| `Validators.RewriteVirtualLength` | ietf/utils/validators.py:70 | the rewritten buffer is longer than the original by the number of occurrences of "virtual" |
| `Validators.VirtualPrecededBySpace` | ietf/utils/validators.py:70 | every occurrence of "virtual" in the rewritten buffer comes right after a space byte |
| `Validators.RewriteLeavesNoVirtualLine` | ietf/utils/validators.py:69-70 | after the rewrite no line begins with "virtual", so the work-around's condition no longer holds |
| `Validators.SniffedBuffers` | ietf/utils/validators.py:65-71 | the sniffer sees the content first, and a second time iff the first type is `text/x-c++` and a line begins with "virtual" plus whitespace; the second buffer is the rewrite, with the length and line-start properties above |
| `Validators.ValidateMimeType` | ietf/utils/validators.py:63-75 | with an empty allow-list never rejects; otherwise rejects iff the final type is not in the list; on success returns the final (type, encoding) pair, which is the second sniff's exactly in the C++/"virtual" case |
| `Validators.NonCppSniffedOnce` | ietf/utils/validators.py:66-72 | when the first guess is not C++ source the sniffer is called once and its type alone decides |
| `Validators.EmptyAllowListAcceptsAll` | ietf/utils/validators.py:72 | an empty allow-list accepts every content and returns the final guess |
| `PyStrings.RFind` | ietf/utils/validators.py:78 | `rfind` returns -1 or an index holding the character, with no later index holding it |
| `PosixPath.SplitExt` | ietf/utils/validators.py:78 | `root + ext == name`; `ext` is empty or starts with '.', with no further '.' and no '/' |
| `PosixPath.SplitExtFindsExtension` | ietf/utils/validators.py:78 | `ext` is non-empty iff the last dot of the name is in the last path component and preceded there by a non-dot character (leading dots are skipped) |
| `PosixPath.SplitExtLower` | ietf/utils/validators.py:78-79 | splitting a lowered name gives the lowered parts of the split name |
| `Validators.ValidateFileExtension` | ietf/utils/validators.py:77-81 | rejects iff the lowered extension is not in the allow-list (an empty list rejects everything); on success returns the extension in its original case |
| `Validators.AcceptedExtensionShape` | ietf/utils/validators.py:78-81 | an accepted extension is a suffix of the name, empty iff the name has no extension, otherwise a dot followed by neither '.' nor '/' |
| `Validators.ExtensionCaseInsensitive` | ietf/utils/validators.py:79-81 | the name's letter case does not change the verdict; for a lowered name the result is the lowered extension |
| `Validators.ValidateNoHtmlFrame` | ietf/utils/validators.py:83-87 | fails iff the parsed content has a `frameset`, `frame` or `iframe` element |
| `UrlParse.Netloc` | ietf/utils/validators.py:102 | raises "Invalid IPv6 URL" iff the URL has a `//` authority whose text holds one square bracket without its partner; otherwise a non-empty network location is exactly the text after `//` up to the first '/', '?' or '#', which it never holds |
| `UrlParse.NetlocOfAuthority` | ietf/utils/validators.py:102 | for a scheme beginning with an ASCII letter, `scheme://host` followed by nothing or by a path, query or fragment, the network location is `host` |
| `UrlParse.NetlocRejectsUnbalanced` | ietf/utils/validators.py:102 | for the same URLs with one bracket of `host` unpaired, `urlparse` raises "Invalid IPv6 URL" |
| `UrlParse.NoNetlocWithoutLetterScheme` | ietf/utils/validators.py:102 | a URL whose first character is neither an ASCII letter nor '/' has no scheme and an empty network location ("1a://host" gives "") |
| `Validators.ValidateExternalResourceValue` | ietf/utils/validators.py:95-120 | type `string` passes; an unknown type fails naming `type.name`; `email` delegates to the e-mail check; `url` with `jabber_room` passes; `github_org`/`github_repo` pass iff the value is a valid http(s) URL whose lowered network location is exactly "github.com", failing with the URL error, the escaping `ValueError` or the github error in that order; other `url` names delegate to the URL check |
| `Validators.GithubRejectsPortAndUserinfo` | ietf/utils/validators.py:100-103 | a port (':') or user information ('@') in the network location makes a github name fail |
| `Validators.GithubUrlByHost` | ietf/utils/validators.py:100-103 | a valid http(s) URL `scheme://host...` passes for a github name iff `host` lowered is "github.com", and otherwise fails with the github error |

## Left out

- `re.compile` and the Python regular-expression grammar: the compiler is a parameter, so whether a pattern compiles is not modelled.
- `get_mime_type` (libmagic): the sniffer is a parameter.
- PyQuery's HTML parsing: the element count per tag is a parameter, and exceptions raised while parsing are not modelled.
- Django's `URLValidator` and `EmailValidator`: they are predicates. The model does not capture that the http(s) validator is the general one restricted to two schemes.
- Message wording and `filesizeformat`: errors carry the limit, size, found type or extension and allow-list, not the formatted text.
- `file.open()`, `file.read()` and the read position they advance: validators take the content. `settings.SECR_MAX_UPLOAD_SIZE` is the `maxUploadSize` parameter.
- `@deconstructible` and Django's `RegexValidator` plumbing: `validate_no_control_chars` is modelled as the search it performs.
- Values that are not `str`: the model takes a `str`. `re.compile` also accepts `bytes` and compiled patterns, and for those the test `'-*' in value` then raises `TypeError`; this is not modelled. Neither is the `str()` that Django's `RegexValidator` applies to its value.
- ValidateFileExtension: `str.lower()` is modelled for ASCII letters only; non-ASCII case folding is not captured.
- ValidateExternalResourceValue: the github host test lowers ASCII letters only, as for extensions.
- Netloc: models only the extraction of the network location and the unbalanced-bracket `ValueError`. It leaves out `_checknetloc`: a non-ASCII network location that NFKC normalisation changes so that it gains '/', '?', '#', '@' or ':' (such as "a\u2100b") raises `ValueError` in Python, while the model returns it, so a github name then fails with the github error instead of the exception. It also leaves out the removal of tab, CR and LF characters (3.9.5 and 3.10.0 onwards), the stripping of leading C0 control characters and spaces (later security releases), and the validation of bracketed IPv6 hosts (3.11.4 onwards). The scheme rule is that of 3.7.16, 3.8.16, 3.9.16, 3.10.9, 3.11.1 and later, where a scheme must begin with an ASCII letter. Earlier releases also split off schemes beginning with a digit, '+', '-' or '.', and releases before 3.9 had further scheme rules.

## Findings

| source | as written | input that shows it | evidently intended | confidence | as-written member | corrected member |
|---|---|---|---|---|---|---|
| ietf/utils/validators.py:23-25 | `^[^\x00-\x1f]*$` with `re.search` accepts a string ending in one newline, because `$` also matches before a final newline | "abc\n" passes although '\n' (0x0A) is a control character | reject every string holding a character in 0x00-0x1F (anchor with `\Z`), as the message "Please enter a string without control characters." says | medium, not executed | `Validators.TrailingNewlineAccepted` | `Validators.ValidateNoControlCharsStrict` |
