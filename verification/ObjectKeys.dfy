/** Object keys and prefixes of the lakehouse store. */
module ObjectKeys {
  import opened Wrappers
  import opened Text

  predicate Contains(s: string, part: string) {
    part <= s || (s != "" && Contains(s[1..], part))
  }

  /** `_has_control` */
  predicate HasControl(s: string) {
    exists i :: 0 <= i < |s| && (s[i] < ' ' || s[i] == '\U{7f}')
  }

  predicate SafeKey(value: string) {
    && value != "" && !Contains(value, "://") && value[0] != '/'
    && '\\' !in value && !Contains(value, "//") && !Contains(value, "..") && !HasControl(value)
  }

  /** `validate_key`: the trimmed key, or None when it raises. */
  function ValidateKey(key: string): (value: Option<string>)
    ensures value.Some? ==> value.value == Strip(key) && SafeKey(value.value)
  {
    if SafeKey(Strip(key)) then Some(Strip(key)) else None
  }

  /** A validated key validates to itself; other spellings of it differ by outer blanks only. */
  lemma ValidateKeyIdempotent(key: string)
    requires ValidateKey(key).Some?
    ensures ValidateKey(ValidateKey(key).value) == ValidateKey(key)
    ensures ValidateKey(key) == Some(key) <==> Trimmed(key)
  {
    StripTrims(key);
    StripTrims(Strip(key));
  }

  /** `rstrip("/")` */
  function DropSlashes(s: string): string {
    if s != "" && s[|s| - 1] == '/' then DropSlashes(s[..|s| - 1]) else s
  }

  datatype PrefixError = UnsafePrefix | InvalidPrefix

  /** `validate_prefix` */
  function ValidatePrefix(prefix: string, forDelete: bool, trailingSlash: bool): Result<string, PrefixError> {
    var value := Strip(prefix);
    if forDelete && value == "" then Failure(UnsafePrefix)
    else if value != "" && ValidateKey(DropSlashes(value)).None? then Failure(InvalidPrefix)
    else if forDelete && trailingSlash && value[|value| - 1] != '/' then Failure(UnsafePrefix)
    else Success(value)
  }

  /** Validating an accepted prefix again, as listing does, changes nothing. */
  lemma ValidatePrefixAgain(prefix: string, forDelete: bool, trailingSlash: bool)
    requires ValidatePrefix(prefix, forDelete, trailingSlash).Success?
    ensures var value := ValidatePrefix(prefix, forDelete, trailingSlash).value;
            ValidatePrefix(value, false, false) == Success(value) && (forDelete ==> value != "")
  {
    StripTrims(prefix);
    StripTrims(Strip(prefix));
  }
}
