/**
 * The rules the realm form applies to a realm's name and path.
 *
 * The rules are values handed to the form library, which checks `minLength`
 * and `pattern` only for a non-empty value and reports the first failing
 * rule in the order required, minimum length, pattern. The minimum length
 * counts UTF-16 code units, as JavaScript string lengths do. The Unicode categories
 * "lowercase letter" and "decimal number" are parameters: this model has no
 * Unicode character database.
 */
module RealmValidation {
  import opened Wrappers
  import opened Text

  /** Which rule a value breaks; each carries its own message in the form. */
  datatype RuleError = NameRequired | PathRequired | PathTooShort | PathNotAlphanumDash

  const MIN_PATH_LENGTH: nat := 2

  /** `^(\p{Ll}|\p{Nd}|-)*$`. */
  predicate MatchesPathPattern(path: string, isLowercase: char -> bool, isDecimal: char -> bool) {
    forall i :: 0 <= i < |path| ==> isLowercase(path[i]) || isDecimal(path[i]) || path[i] == '-'
  }

  /** The `name` rules: it is only required. */
  function ValidateName(name: string): (r: Result<(), RuleError>)
    ensures r.Ok? <==> name != ""
    ensures r.Err? ==> r.error == NameRequired
  {
    if name == "" then Err(NameRequired) else Ok(())
  }

  /**
   * The length of `s` in UTF-16 code units, which is what a JavaScript string's
   * `length` (and so `minLength`) counts: a character outside the Basic
   * Multilingual Plane takes a surrogate pair.
   */
  function Utf16Length(s: string): (n: nat)
    ensures |s| <= n <= 2 * |s|
    ensures n >= MIN_PATH_LENGTH <==> |s| >= 2 || (|s| == 1 && s[0] as int >= 0x1_0000)
  {
    if s == "" then 0
    else (if s[0] as int >= 0x1_0000 then 2 else 1) + Utf16Length(s[1..])
  }

  /** The `path` rules, the first that fails. */
  function ValidatePath(path: string, isLowercase: char -> bool, isDecimal: char -> bool): (r: Result<(), RuleError>)
    ensures r.Ok? <==>
      && (|path| >= 2 || (|path| == 1 && path[0] as int >= 0x1_0000))
      && MatchesPathPattern(path, isLowercase, isDecimal)
    ensures r == Err(PathRequired) <==> path == ""
    ensures r == Err(PathTooShort) <==> |path| == 1 && path[0] as int < 0x1_0000
    ensures r == Err(PathNotAlphanumDash) <==>
      && (|path| >= 2 || (|path| == 1 && path[0] as int >= 0x1_0000))
      && !MatchesPathPattern(path, isLowercase, isDecimal)
  {
    if path == "" then Err(PathRequired)
    else if Utf16Length(path) < MIN_PATH_LENGTH then Err(PathTooShort)
    else if !MatchesPathPattern(path, isLowercase, isDecimal) then Err(PathNotAlphanumDash)
    else Ok(())
  }

  /** The pattern uses `*`, so it accepts the empty path; only the required rule rejects it. */
  lemma EmptyPathOnlyRequired(isLowercase: char -> bool, isDecimal: char -> bool)
    ensures MatchesPathPattern("", isLowercase, isDecimal)
    ensures ValidatePath("", isLowercase, isDecimal) == Err(PathRequired)
  {
  }

  /** One lowercase letter outside the Basic Multilingual Plane is two code units long, so it is long enough. */
  lemma AstralLetterAccepted(isLowercase: char -> bool, isDecimal: char -> bool)
    requires isLowercase('\U{1D41A}')
    ensures ValidatePath("\U{1D41A}", isLowercase, isDecimal) == Ok(())
  {
  }

  /** Accepted paths are closed under joining with a dash, when each part is accepted. */
  lemma {:induction false} AcceptedJoin(a: string, b: string, isLowercase: char -> bool, isDecimal: char -> bool)
    requires ValidatePath(a, isLowercase, isDecimal).Ok? && ValidatePath(b, isLowercase, isDecimal).Ok?
    ensures ValidatePath(a + "-" + b, isLowercase, isDecimal).Ok?
  {
    var s := a + "-" + b;
    forall i | 0 <= i < |s| ensures isLowercase(s[i]) || isDecimal(s[i]) || s[i] == '-' {
      if i < |a| {
        assert s[i] == a[i];
      } else if i > |a| {
        assert s[i] == b[i - |a| - 1];
      }
    }
  }

  /** A path that a slash would split is never accepted, whatever the categories say of '/'. */
  lemma SlashRejected(path: string, isLowercase: char -> bool, isDecimal: char -> bool)
    requires !isLowercase('/') && !isDecimal('/')
    requires !NoSeparator(path, '/')
    ensures ValidatePath(path, isLowercase, isDecimal).Err?
  {
  }
}
