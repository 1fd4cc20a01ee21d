/**
 * The checks on user-entered custom pasta (validators.py). Each returns
 * `(valid, message)`; the checks run in a fixed order and the first one that
 * fails decides the message. A success carries the empty message.
 */
module Validators {
  import opened Strings

  const EmptyNameMessage := "Pasta name cannot be empty"
  const ShortNameMessage := "Pasta name must be at least 2 characters long"
  const LongNameMessage := "Pasta name must be 50 characters or less"
  const BadCharacterMessage := "Pasta name can only contain letters, spaces, hyphens, and apostrophes"
  const NotWholeMessage := "Cooking times must be whole numbers"
  const TooShortTimeMessage := "Cooking times must be at least 1 minute"
  const TooLongTimeMessage := "Cooking times must be 60 minutes or less"
  const MinAboveMaxMessage := "Minimum time cannot be greater than maximum time"

  /** The message naming the (stripped) name that is already taken. */
  function DuplicateNameMessage(name: string): (m: string)
    ensures m != ""
  {
    "A pasta type named '" + name + "' already exists"
  }

  /** Letters, spaces, hyphens and apostrophes. */
  predicate AllowedNameChar(c: char)
  {
    IsLetter(c) || c == ' ' || c == '-' || c == '\''
  }

  /** Every character of `s` is allowed in a pasta name. */
  predicate AllowedChars(s: string)
  {
    forall i :: 0 <= i < |s| ==> AllowedNameChar(s[i])
  }

  /** `[n.lower() for n in existing_names]`: exactly the lower-cased forms of the names. */
  function LowerAll(names: seq<string>): (r: seq<string>)
    ensures |r| == |names|
    ensures forall x :: x in r <==> exists n :: n in names && Lower(n) == x
  {
    var r := seq(|names|, i requires 0 <= i < |names| => Lower(names[i]));
    assert forall x :: x in r <==> exists n :: n in names && Lower(n) == x by {
      forall x ensures x in r <==> exists n :: n in names && Lower(n) == x {
        if exists n :: n in names && Lower(n) == x {
          var n :| n in names && Lower(n) == x;
          var i :| 0 <= i < |names| && names[i] == n;
          assert r[i] == x;
        }
      }
    }
    r
  }

  /** Some existing name equals `name` once both are lower-cased. */
  predicate Taken(name: string, existingNames: seq<string>)
  {
    exists i :: 0 <= i < |existingNames| && Lower(existingNames[i]) == Lower(name)
  }

  lemma TakenIffListed(name: string, existingNames: seq<string>)
    ensures Lower(name) in LowerAll(existingNames) <==> Taken(name, existingNames)
  {
    if Lower(name) in LowerAll(existingNames) {
      var i :| 0 <= i < |existingNames| && LowerAll(existingNames)[i] == Lower(name);
    }
  }

  /** The checks `validate_pasta_name` makes once the name is known not to be blank, on the stripped name. */
  function CheckStrippedName(n: string, existingNames: seq<string>): (r: (bool, string))
    ensures r.0 ==> r.1 == ""
    ensures !r.0 ==> |r.1| > 0
    ensures |n| < 2 ==> r == (false, ShortNameMessage)
    ensures |n| > 50 ==> r == (false, LongNameMessage)
    ensures 2 <= |n| <= 50 && !AllowedChars(n) ==> r == (false, BadCharacterMessage)
    ensures (2 <= |n| <= 50 && AllowedChars(n) && Taken(n, existingNames)) ==>
              r == (false, DuplicateNameMessage(n))
    ensures r.0 <==> 2 <= |n| <= 50 && AllowedChars(n) && !Taken(n, existingNames)
  {
    TakenIffListed(n, existingNames);
    if |n| < 2 then (false, ShortNameMessage)
    else if |n| > 50 then (false, LongNameMessage)
    else if !AllowedChars(n) then (false, BadCharacterMessage)
    else if Lower(n) in LowerAll(existingNames) then (false, DuplicateNameMessage(n))
    else (true, "")
  }

  /** `validate_pasta_name`. */
  function ValidatePastaName(name: string, existingNames: seq<string>): (r: (bool, string))
    ensures r.0 ==> r.1 == ""
    ensures !r.0 ==> |r.1| > 0
    ensures IsBlank(name) ==> r == (false, EmptyNameMessage)
    ensures !IsBlank(name) && |Strip(name)| < 2 ==> r == (false, ShortNameMessage)
    ensures !IsBlank(name) && |Strip(name)| > 50 ==> r == (false, LongNameMessage)
    ensures 2 <= |Strip(name)| <= 50 && !AllowedChars(Strip(name)) ==> r == (false, BadCharacterMessage)
    ensures (2 <= |Strip(name)| <= 50 && AllowedChars(Strip(name)) && Taken(Strip(name), existingNames)) ==>
              r == (false, DuplicateNameMessage(Strip(name)))
  {
    StripEmptyIffBlank(name);
    if |name| == 0 || |Strip(name)| == 0 then
      (false, EmptyNameMessage)
    else
      var n := Strip(name);
      CheckStrippedName(n, existingNames)
  }

  /** A name is accepted exactly when, stripped, it is 2 to 50 allowed characters and not taken. */
  lemma ValidNameIff(name: string, existingNames: seq<string>)
    ensures ValidatePastaName(name, existingNames).0 <==>
              2 <= |Strip(name)| <= 50 &&
              AllowedChars(Strip(name)) &&
              !Taken(Strip(name), existingNames)
  {
    StripEmptyIffBlank(name);
    TakenIffListed(Strip(name), existingNames);
  }

  /** Once a name is accepted and recorded, the same name in any case or padding is refused. */
  lemma AcceptedNameIsThenTaken(name: string, other: string, existingNames: seq<string>)
    requires ValidatePastaName(name, existingNames).0
    requires Lower(Strip(other)) == Lower(Strip(name))
    ensures !ValidatePastaName(other, existingNames + [Strip(name)]).0
  {
    var names := existingNames + [Strip(name)];
    assert Lower(names[|existingNames|]) == Lower(Strip(other));
  }

  /** A number as a Python caller might pass it: an `int` or something else (a float). */
  datatype Minutes = Whole(n: int) | NotWhole(x: real)

  /** `validate_cooking_time`. */
  function ValidateCookingTime(minTime: Minutes, maxTime: Minutes): (r: (bool, string))
    ensures r.0 ==> r.1 == ""
    ensures !r.0 ==> |r.1| > 0
    ensures r.0 <==> minTime.Whole? && maxTime.Whole? && 1 <= minTime.n <= maxTime.n <= 60
    ensures !(minTime.Whole? && maxTime.Whole?) ==> r == (false, NotWholeMessage)
    ensures minTime.Whole? && maxTime.Whole? && (minTime.n < 1 || maxTime.n < 1) ==>
              r == (false, TooShortTimeMessage)
    ensures (minTime.Whole? && maxTime.Whole? && 1 <= minTime.n && 1 <= maxTime.n &&
             (minTime.n > 60 || maxTime.n > 60)) ==> r == (false, TooLongTimeMessage)
    ensures (minTime.Whole? && maxTime.Whole? && 1 <= minTime.n <= 60 && 1 <= maxTime.n <= 60 &&
             minTime.n > maxTime.n) ==> r == (false, MinAboveMaxMessage)
  {
    if !minTime.Whole? || !maxTime.Whole? then (false, NotWholeMessage)
    else if minTime.n < 1 || maxTime.n < 1 then (false, TooShortTimeMessage)
    else if minTime.n > 60 || maxTime.n > 60 then (false, TooLongTimeMessage)
    else if minTime.n > maxTime.n then (false, MinAboveMaxMessage)
    else (true, "")
  }
}
