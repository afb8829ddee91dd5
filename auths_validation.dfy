/** The registration input rules: the password schema, and the `name`,
    `email` and `phone` fields of the register schema. A string schema is a
    list of checks; like the validation library, the model runs every check
    and reports the message of each one that fails, in order, and the input
    is accepted when no check fails. */
module AuthsValidation {
  import opened Patterns

  /** `String.prototype.length`, which the length checks use: it counts
      UTF-16 code units, so a character outside the Basic Multilingual Plane
      counts twice. */
  function JsLength(s: string): nat
  {
    if s == [] then 0 else (if s[0] as int >= 0x1_0000 then 2 else 1) + JsLength(s[1..])
  }

  datatype Check =
    | MinLength(bound: nat, message: string)
    | MaxLength(bound: nat, message: string)
    | Matches(re: Regex, message: string)

  predicate Passes(c: Check, s: string)
  {
    match c
    case MinLength(n, _) => JsLength(s) >= n
    case MaxLength(n, _) => JsLength(s) <= n
    case Matches(re, _) => Test(re, s)
  }

  /** The message of a check that fails, or nothing. */
  function Outcome(c: Check, s: string): seq<string>
  {
    if Passes(c, s) then [] else [c.message]
  }

  /** The messages of the failing checks, in schema order. */
  function Issues(checks: seq<Check>, s: string): seq<string>
  {
    if checks == [] then [] else Outcome(checks[0], s) + Issues(checks[1..], s)
  }

  /** An input is accepted iff it passes every check. */
  lemma {:induction false} IssuesEmptyIff(checks: seq<Check>, s: string)
    ensures Issues(checks, s) == [] <==> forall k :: 0 <= k < |checks| ==> Passes(checks[k], s)
  {
    if checks != [] {
      IssuesEmptyIff(checks[1..], s);
      assert forall k :: 1 <= k < |checks| ==> checks[k] == checks[1..][k - 1];
    }
  }

  lemma IssuesSingle(c: Check, s: string)
    ensures Issues([c], s) == [] <==> Passes(c, s)
  {
    assert [c][1..] == [];
  }

  /** A schema of one anchored pattern accepts exactly the inputs the whole pattern matches. */
  lemma AnchoredCheck(p: Pattern, message: string, s: string)
    ensures Issues([Matches(Anchored(p), message)], s) == [] <==> |s| in Ends(p, s, 0)
  {
    IssuesSingle(Matches(Anchored(p), message), s);
  }

  /** When exactly one check fails, its message is the only one reported. */
  lemma {:induction false} IssuesExactlyOne(checks: seq<Check>, s: string, j: nat)
    requires j < |checks| && !Passes(checks[j], s)
    requires forall k :: 0 <= k < |checks| && k != j ==> Passes(checks[k], s)
    ensures Issues(checks, s) == [checks[j].message]
  {
    assert forall k :: 1 <= k < |checks| ==> checks[k] == checks[1..][k - 1];
    if j == 0 {
      IssuesEmptyIff(checks[1..], s);
    } else {
      IssuesExactlyOne(checks[1..], s, j - 1);
    }
  }

  // ---------------------------------------------------------------- password

  const UpperMessage := "Password must contain at least one uppercase letter"
  const LowerMessage := "Password must contain at least one lowercase letter"
  const DigitMessage := "Password must contain at least one number"
  const SpecialMessage := "Password must contain at least one special character"
  const ShortMessage := "Password must be at least 8 characters"
  const LongMessage := "Password must be less than 32 characters"

  /** The characters of `[@$!%*?&#]`. */
  const Specials := "@$!%*?&#"

  const PasswordSchema: seq<Check> := [
    MinLength(8, ShortMessage),
    MaxLength(32, LongMessage),
    Matches(Unanchored(Class(Range('A', 'Z'))), UpperMessage),
    Matches(Unanchored(Class(Range('a', 'z'))), LowerMessage),
    Matches(Unanchored(Class(Range('0', '9'))), DigitMessage),
    Matches(Unanchored(Class(CharClass([], Specials))), SpecialMessage)
  ]

  predicate PasswordAccepted(p: string)
  {
    Issues(PasswordSchema, p) == []
  }

  predicate HasUpper(p: string) { exists c :: c in p && 'A' <= c <= 'Z' }
  predicate HasLower(p: string) { exists c :: c in p && 'a' <= c <= 'z' }
  predicate HasDigit(p: string) { exists c :: c in p && '0' <= c <= '9' }
  predicate HasSpecial(p: string) { exists c :: c in p && c in Specials }

  /** What each password rule checks. */
  lemma PasswordRules(p: string)
    ensures Passes(PasswordSchema[0], p) == (JsLength(p) >= 8)
    ensures Passes(PasswordSchema[1], p) == (JsLength(p) <= 32)
    ensures Passes(PasswordSchema[2], p) == HasUpper(p)
    ensures Passes(PasswordSchema[3], p) == HasLower(p)
    ensures Passes(PasswordSchema[4], p) == HasDigit(p)
    ensures Passes(PasswordSchema[5], p) == HasSpecial(p)
  {
    ClassSearch(Range('A', 'Z'), p);
    ClassSearch(Range('a', 'z'), p);
    ClassSearch(Range('0', '9'), p);
    ClassSearch(CharClass([], Specials), p);
  }

  /** A password is accepted iff its length is 8..32 inclusive and it has an
      upper-case letter, a lower-case letter, a digit and a special character. */
  lemma PasswordAcceptedIff(p: string)
    ensures PasswordAccepted(p)
        <==> 8 <= JsLength(p) <= 32 && HasUpper(p) && HasLower(p) && HasDigit(p) && HasSpecial(p)
  {
    IssuesEmptyIff(PasswordSchema, p);
    PasswordRules(p);
  }

  /** A password that breaks rule `j` of the schema and no other is rejected with that rule's message alone. */
  lemma PasswordOnlyIssue(p: string, j: nat)
    requires j < 6
    requires JsLength(p) >= 8 <==> j != 0
    requires JsLength(p) <= 32 <==> j != 1
    requires HasUpper(p) <==> j != 2
    requires HasLower(p) <==> j != 3
    requires HasDigit(p) <==> j != 4
    requires HasSpecial(p) <==> j != 5
    ensures Issues(PasswordSchema, p) == [PasswordSchema[j].message]
  {
    PasswordRules(p);
    IssuesExactlyOne(PasswordSchema, p, j);
  }

  /** For a string of Basic Multilingual Plane characters the length is the number of characters. */
  lemma {:induction false} BmpLength(s: string)
    requires forall c :: c in s ==> c as int < 0x1_0000
    ensures JsLength(s) == |s|
  {
    if s != [] {
      assert s[0] in s;
      assert forall c :: c in s[1..] ==> c in s;
      BmpLength(s[1..]);
    }
  }

  /** Lengths add up over concatenation. */
  lemma {:induction false} JsLengthAppend(a: string, b: string)
    ensures JsLength(a + b) == JsLength(a) + JsLength(b)
  {
    if a != [] {
      assert (a + b)[1..] == a[1..] + b;
      JsLengthAppend(a[1..], b);
    } else {
      assert a + b == b;
    }
  }

  // Facts about the example passwords, a few at a time.

  lemma ShortestLength() ensures JsLength("Abcdef1@") == 8 { }
  lemma TooShortLength() ensures JsLength("Abcde1@") == 7 { }
  lemma NoUpperLength() ensures JsLength("abcdef1@") == 8 { }
  lemma NoLowerLength() ensures JsLength("ABCDEF1@") == 8 { }
  lemma NoDigitLength() ensures JsLength("Abcdefg@") == 8 { }
  lemma NoSpecialLength() ensures JsLength("Abcdefg1") == 8 { }

  lemma ShortestClasses(w: string)
    requires w == "Abcdef1@"
    ensures HasUpper(w) && HasLower(w) && HasDigit(w) && HasSpecial(w)
  {
    assert w[0] in w && w[1] in w && w[6] in w && w[7] in w;
  }

  lemma TooShortClasses(w: string)
    requires w == "Abcde1@"
    ensures HasUpper(w) && HasLower(w) && HasDigit(w) && HasSpecial(w)
  {
    assert w[0] in w && w[1] in w && w[5] in w && w[6] in w;
  }

  /** Four copies of an 8-character password: 32 characters. */
  lemma LongestLength(w: string)
    requires w == "Abcdef1@"
    ensures JsLength(w + w + w + w) == 32
  {
    ShortestLength();
    JsLengthAppend(w, w);
    JsLengthAppend(w + w, w);
    JsLengthAppend(w + w + w, w);
  }

  lemma LongestClasses(w: string)
    requires w == "Abcdef1@"
    ensures HasUpper(w + w + w + w) && HasLower(w + w + w + w) && HasDigit(w + w + w + w) && HasSpecial(w + w + w + w)
  {
    var c := w + w + w + w;
    assert c[0] == w[0] && c[1] == w[1] && c[6] == w[6] && c[7] == w[7];
    assert c[0] in c && c[1] in c && c[6] in c && c[7] in c;
  }

  lemma TooLongLength(w: string)
    requires w == "Abcdef1@"
    ensures JsLength(w + w + w + w + "x") == 33
  {
    LongestLength(w);
    JsLengthAppend(w + w + w + w, "x");
  }

  lemma TooLongClasses(w: string)
    requires w == "Abcdef1@"
    ensures HasUpper(w + w + w + w + "x") && HasLower(w + w + w + w + "x")
    ensures HasDigit(w + w + w + w + "x") && HasSpecial(w + w + w + w + "x")
  {
    var c := w + w + w + w + "x";
    assert c[0] == w[0] && c[1] == w[1] && c[6] == w[6] && c[7] == w[7];
    assert c[0] in c && c[1] in c && c[6] in c && c[7] in c;
  }

  lemma NoUpperFacts(w: string)
    requires w == "abcdef1@"
    ensures !HasUpper(w) && HasLower(w) && HasDigit(w) && HasSpecial(w)
  {
    assert !HasUpper(w);
    assert w[0] in w && w[6] in w && w[7] in w;
  }

  lemma NoLowerFacts(w: string)
    requires w == "ABCDEF1@"
    ensures HasUpper(w) && !HasLower(w) && HasDigit(w) && HasSpecial(w)
  {
    assert !HasLower(w);
    assert w[0] in w && w[6] in w && w[7] in w;
  }

  lemma NoDigitFacts(w: string)
    requires w == "Abcdefg@"
    ensures HasUpper(w) && HasLower(w) && !HasDigit(w) && HasSpecial(w)
  {
    assert !HasDigit(w);
    assert w[0] in w && w[1] in w && w[7] in w;
  }

  lemma NoSpecialFacts(w: string)
    requires w == "Abcdefg1"
    ensures HasUpper(w) && HasLower(w) && HasDigit(w) && !HasSpecial(w)
  {
    assert !HasSpecial(w);
    assert w[0] in w && w[1] in w && w[7] in w;
  }

  /** Every length bound is inclusive: 8 and 32 characters are accepted, 7 and 33 are not. */
  lemma PasswordBoundaries(w: string)
    requires w == "Abcdef1@"
    ensures PasswordAccepted(w)
    ensures PasswordAccepted(w + w + w + w)
    ensures Issues(PasswordSchema, "Abcde1@") == [ShortMessage]
    ensures Issues(PasswordSchema, w + w + w + w + "x") == [LongMessage]
  {
    ShortestLength();
    ShortestClasses(w);
    PasswordAcceptedIff(w);
    LongestLength(w);
    LongestClasses(w);
    PasswordAcceptedIff(w + w + w + w);
    TooShortLength();
    TooShortClasses("Abcde1@");
    PasswordOnlyIssue("Abcde1@", 0);
    TooLongLength(w);
    TooLongClasses(w);
    PasswordOnlyIssue(w + w + w + w + "x", 1);
  }

  /** No character-class rule is implied by the others: each example meets every rule but one. */
  lemma PasswordRulesIndependent()
    ensures Issues(PasswordSchema, "abcdef1@") == [UpperMessage]
    ensures Issues(PasswordSchema, "ABCDEF1@") == [LowerMessage]
    ensures Issues(PasswordSchema, "Abcdefg@") == [DigitMessage]
    ensures Issues(PasswordSchema, "Abcdefg1") == [SpecialMessage]
  {
    NoUpperLength();
    NoUpperFacts("abcdef1@");
    PasswordOnlyIssue("abcdef1@", 2);
    NoLowerLength();
    NoLowerFacts("ABCDEF1@");
    PasswordOnlyIssue("ABCDEF1@", 3);
    NoDigitLength();
    NoDigitFacts("Abcdefg@");
    PasswordOnlyIssue("Abcdefg@", 4);
    NoSpecialLength();
    NoSpecialFacts("Abcdefg1");
    PasswordOnlyIssue("Abcdefg1", 5);
  }

  // -------------------------------------------------------------------- name

  const NameSchema: seq<Check> := [
    MinLength(2, "Name must be at least 2 characters"),
    MaxLength(50, "Name must be less than 50 characters")
  ]

  predicate NameAccepted(n: string)
  {
    Issues(NameSchema, n) == []
  }

  /** A name is accepted iff its length is 2..50 inclusive. */
  lemma NameAcceptedIff(n: string)
    ensures NameAccepted(n) <==> 2 <= JsLength(n) <= 50
  {
    IssuesEmptyIff(NameSchema, n);
  }

  // ------------------------------------------------------------------- phone

  const PhoneMessage := "Phone number must be a valid Bangladeshi number"

  /** `\d`: the ASCII digits. */
  const Digit := Range('0', '9')

  /** `(?:\+8801|01)` */
  const PhonePrefix := Either(Text("+8801"), Text("01"))

  /** `[3-9]\d{8}` */
  const Subscriber := Then(Class(Range('3', '9')), Repeat(Class(Digit), 8))

  /** `/^(?:\+8801|01)[3-9]\d{8}$/` */
  const PhonePattern := Then(PhonePrefix, Subscriber)

  const PhoneSchema: seq<Check> := [Matches(Anchored(PhonePattern), PhoneMessage)]

  predicate PhoneAccepted(s: string)
  {
    Issues(PhoneSchema, s) == []
  }

  predicate IsAsciiDigit(c: char) { '0' <= c <= '9' }

  /** An operator digit 3..9 at position `k`, then exactly eight ASCII digits. */
  predicate SubscriberAt(s: string, k: nat)
  {
    k + 9 <= |s| && '3' <= s[k] <= '9' && forall m :: k < m < k + 9 ==> IsAsciiDigit(s[m])
  }

  /** The two shapes the pattern allows, written out by position. */
  predicate BangladeshiNumber(s: string)
  {
    || (|s| == 11 && s[..2] == "01" && SubscriberAt(s, 2))
    || (|s| == 14 && s[..5] == "+8801" && SubscriberAt(s, 5))
  }

  /** The subscriber part starting at `j` matches exactly the next nine characters, when they have its shape. */
  lemma SubscriberEnds(s: string, j: nat)
    requires j <= |s|
    ensures Ends(Subscriber, s, j) == if SubscriberAt(s, j) then {j + 9} else {}
  {
    ClassThenRepeatEnds(Range('3', '9'), Digit, 8, s, j);
    if j + 9 <= |s| {
      assert AllInClass(s, j + 1, j + 9, Digit) <==> forall m :: j < m < j + 9 ==> IsAsciiDigit(s[m]);
    }
  }

  /** Where the prefix alternatives can end: after `+8801`, after `01`, or nowhere. */
  lemma PrefixEnds(s: string)
    ensures Ends(PhonePrefix, s, 0)
         == if |s| >= 5 && s[..5] == "+8801" then {5}
            else if |s| >= 2 && s[..2] == "01" then {2}
            else {}
  {
    if |s| >= 5 && s[..5] == "+8801" {
      assert s[..2][0] == s[..5][0];
    }
  }

  /** Any prefix and subscriber patterns that match like the phone pattern's
      parts match together exactly the Bangladeshi shapes. */
  lemma PrefixThenSubscriber(prefix: Pattern, sub: Pattern, s: string)
    requires Ends(prefix, s, 0)
          == if |s| >= 5 && s[..5] == "+8801" then {5}
             else if |s| >= 2 && s[..2] == "01" then {2}
             else {}
    requires forall j: nat :: j <= |s| ==> Ends(sub, s, j) == if SubscriberAt(s, j) then {j + 9} else {}
    ensures |s| in Ends(Then(prefix, sub), s, 0) <==> BangladeshiNumber(s)
  {
    if |s| >= 5 && s[..5] == "+8801" {
      ThenEndsOne(prefix, sub, s, 0, 5);
      assert s[..2] != "01" by { assert s[..2][0] == s[..5][0]; }
    } else if |s| >= 2 && s[..2] == "01" {
      ThenEndsOne(prefix, sub, s, 0, 2);
    } else {
      ThenEndsNone(prefix, sub, s, 0);
    }
  }

  /** The phone rule accepts exactly the two Bangladeshi mobile shapes. */
  lemma PhoneAcceptedIff(s: string)
    ensures PhoneAccepted(s) <==> BangladeshiNumber(s)
  {
    AnchoredCheck(PhonePattern, PhoneMessage, s);
    PrefixEnds(s);
    forall j: nat | j <= |s|
      ensures Ends(Subscriber, s, j) == if SubscriberAt(s, j) then {j + 9} else {}
    {
      SubscriberEnds(s, j);
    }
    PrefixThenSubscriber(PhonePrefix, Subscriber, s);
  }

  lemma LocalShape(s: string)
    requires |s| == 11 && s[..2] == "01" && SubscriberAt(s, 2)
    ensures forall m :: 0 <= m < |s| ==> IsAsciiDigit(s[m])
  {
    assert s[0] == s[..2][0] && s[1] == s[..2][1];
  }

  lemma InternationalShape(s: string)
    requires |s| == 14 && s[..5] == "+8801" && SubscriberAt(s, 5)
    ensures s[0] == '+' && forall m :: 0 < m < |s| ==> IsAsciiDigit(s[m])
  {
    assert s[0] == s[..5][0] && s[1] == s[..5][1] && s[2] == s[..5][2] && s[3] == s[..5][3] && s[4] == s[..5][4];
  }

  /** An accepted number has 11 characters, or 14 with the `+880` country
      code, and every character but a leading `+` is an ASCII digit. */
  lemma PhoneShape(s: string)
    requires PhoneAccepted(s)
    ensures |s| == 11 || |s| == 14
    ensures |s| == 14 <==> s[0] == '+'
    ensures forall m :: 0 < m < |s| ==> IsAsciiDigit(s[m])
    ensures IsAsciiDigit(s[0]) || s[0] == '+'
  {
    PhoneAcceptedIff(s);
    if |s| == 11 {
      LocalShape(s);
    } else {
      InternationalShape(s);
    }
  }

  lemma LocalNumberParts(s: string)
    requires s == "01712345678"
    ensures s[..2] == "01" && SubscriberAt(s, 2)
  {
  }

  lemma InternationalNumberParts(s: string)
    requires s == "+8801912345678"
    ensures s[..5] == "+8801" && SubscriberAt(s, 5)
  {
  }

  lemma OperatorDigitParts(s: string)
    requires s == "01212345678"
    ensures s[0] != '+' && !SubscriberAt(s, 2)
  {
  }

  /** Examples: both prefixes are accepted; an operator digit below 3, a
      missing digit and a country code without its `+` are rejected. */
  lemma PhoneExamples()
    ensures PhoneAccepted("01712345678")
    ensures PhoneAccepted("+8801912345678")
    ensures !PhoneAccepted("01212345678")
    ensures !PhoneAccepted("0171234567")
    ensures !PhoneAccepted("8801712345678")
  {
    LocalNumberParts("01712345678");
    PhoneAcceptedIff("01712345678");
    InternationalNumberParts("+8801912345678");
    PhoneAcceptedIff("+8801912345678");
    OperatorDigitParts("01212345678");
    PhoneAcceptedIff("01212345678");
    PhoneAcceptedIff("0171234567");
    PhoneAcceptedIff("8801712345678");
  }

  // ------------------------------------------------------------------- email

  /** The characters `String.prototype.trim` removes: ECMAScript WhiteSpace
      (tab, vertical tab, form feed, no-break space, byte order mark and the
      Unicode space separators) and LineTerminator. */
  predicate IsJsWhitespace(c: char)
  {
    || c == '\U{0009}' || c == '\U{000B}' || c == '\U{000C}' || c == '\U{0020}' || c == '\U{00A0}'
    || c == '\U{FEFF}' || c == '\U{1680}' || ('\U{2000}' <= c <= '\U{200A}') || c == '\U{202F}'
    || c == '\U{205F}' || c == '\U{3000}'
    || c == '\U{000A}' || c == '\U{000D}' || c == '\U{2028}' || c == '\U{2029}'
  }

  /** Drops leading whitespace: the result is a suffix of `s` that does not
      start with whitespace, and every character dropped is whitespace. */
  function TrimStart(s: string): (r: string)
    ensures |r| <= |s| && r == s[|s| - |r|..]
    ensures r == [] || !IsJsWhitespace(r[0])
    ensures forall i :: 0 <= i < |s| - |r| ==> IsJsWhitespace(s[i])
  {
    if s != [] && IsJsWhitespace(s[0]) then TrimStart(s[1..]) else s
  }

  /** Drops trailing whitespace: the result is a prefix of `s` that does not
      end with whitespace, and every character dropped is whitespace. */
  function TrimEnd(s: string): (r: string)
    ensures |r| <= |s| && r == s[..|r|]
    ensures r == [] || !IsJsWhitespace(r[|r| - 1])
    ensures forall i :: |r| <= i < |s| ==> IsJsWhitespace(s[i])
  {
    if s != [] && IsJsWhitespace(s[|s| - 1]) then TrimEnd(s[..|s| - 1]) else s
  }

  function Trim(s: string): string
  {
    TrimEnd(TrimStart(s))
  }

  function LowerChar(c: char): char
  {
    if 'A' <= c <= 'Z' then (c as int + 32) as char else c
  }

  function LowerCase(s: string): string
  {
    seq(|s|, i requires 0 <= i < |s| => LowerChar(s[i]))
  }

  /** The email field's transform: `.trim()` followed by `.toLowerCase()`. */
  function NormalizeEmail(s: string): string
  {
    LowerCase(Trim(s))
  }

  predicate NoEdgeWhitespace(s: string)
  {
    s == [] || (!IsJsWhitespace(s[0]) && !IsJsWhitespace(s[|s| - 1]))
  }

  predicate NoAsciiUpper(s: string)
  {
    forall i :: 0 <= i < |s| ==> !('A' <= s[i] <= 'Z')
  }

  /** The trimmed text starts and ends with a non-whitespace character. */
  lemma TrimClean(s: string)
    ensures NoEdgeWhitespace(Trim(s))
  {
    var t := TrimStart(s);
    var u := TrimEnd(t);
    if u != [] {
      assert u[0] == t[0];
    }
  }

  /** Text without edge whitespace is left as it is by trimming. */
  lemma TrimFixed(s: string)
    requires NoEdgeWhitespace(s)
    ensures Trim(s) == s
  {
  }

  /** Lower-casing keeps whether each edge character is whitespace. */
  lemma LowerKeepsEdges(s: string)
    requires NoEdgeWhitespace(s)
    ensures NoEdgeWhitespace(LowerCase(s))
  {
  }

  lemma LowerCaseIdempotent(t: string)
    ensures LowerCase(LowerCase(t)) == LowerCase(t)
  {
    var l := LowerCase(t);
    forall i | 0 <= i < |t|
      ensures LowerChar(l[i]) == l[i]
    {
      assert l[i] == LowerChar(t[i]);
    }
    assert LowerCase(l) == l;
  }

  lemma LowerCaseNoUpper(t: string)
    ensures NoAsciiUpper(LowerCase(t))
  {
    var l := LowerCase(t);
    forall i | 0 <= i < |l|
      ensures !('A' <= l[i] <= 'Z')
    {
      assert l[i] == LowerChar(t[i]);
    }
  }

  /** The normalised email has no leading or trailing whitespace and no
      ASCII upper-case letter, and normalising it again changes nothing. */
  lemma NormalizeEmailProperties(s: string)
    ensures NoEdgeWhitespace(NormalizeEmail(s))
    ensures NoAsciiUpper(NormalizeEmail(s))
    ensures NormalizeEmail(NormalizeEmail(s)) == NormalizeEmail(s)
  {
    var t := Trim(s);
    var l := LowerCase(t);
    assert NormalizeEmail(s) == l;
    TrimClean(s);
    LowerKeepsEdges(t);
    LowerCaseNoUpper(t);
    TrimFixed(l);
    LowerCaseIdempotent(t);
    assert NormalizeEmail(l) == LowerCase(Trim(l)) == LowerCase(l);
  }

  /** Every character of `s[lo..hi]` is whitespace. */
  predicate AllWhitespace(s: string, lo: nat, hi: nat)
    requires lo <= hi <= |s|
  {
    forall i :: lo <= i < hi ==> IsJsWhitespace(s[i])
  }

  /** Trimming the start keeps the suffix after the whitespace it cut off. */
  lemma TrimStartSlice(s: string)
    ensures var lo := |s| - |TrimStart(s)|;
            && AllWhitespace(s, 0, lo)
            && TrimStart(s) == s[lo..]
  {
  }

  /** Trimming the end of the suffix `t` of `s` from `lo` keeps a slice of `s`
      and cuts off whitespace only. */
  lemma SuffixTrimEnd(s: string, lo: nat, t: string)
    requires lo <= |s| && t == s[lo..]
    ensures var hi := lo + |TrimEnd(t)|;
            && hi <= |s|
            && AllWhitespace(s, hi, |s|)
            && TrimEnd(t) == s[lo..hi]
  {
    var u := TrimEnd(t);
    var hi := lo + |u|;
    forall i | hi <= i < |s|
      ensures IsJsWhitespace(s[i])
    {
      assert s[i] == t[i - lo];
    }
    assert t[..|u|] == s[lo..hi];
  }

  /** Trimming cuts off whitespace only, at both ends, and what it keeps is a slice of the input. */
  lemma TrimSlice(s: string)
    ensures var lo := |s| - |TrimStart(s)|;
            var hi := lo + |Trim(s)|;
            && hi <= |s|
            && AllWhitespace(s, 0, lo)
            && AllWhitespace(s, hi, |s|)
            && Trim(s) == s[lo..hi]
  {
    var t := TrimStart(s);
    TrimStartSlice(s);
    SuffixTrimEnd(s, |s| - |t|, t);
  }

  /** The normalised email is the lower-cased input with exactly its leading
      and trailing whitespace cut off: everything cut is whitespace, and what
      is kept neither starts nor ends with whitespace. */
  lemma NormalizeEmailExact(s: string)
    ensures var lo := |s| - |TrimStart(s)|;
            var hi := lo + |Trim(s)|;
            && hi <= |s|
            && AllWhitespace(s, 0, lo)
            && AllWhitespace(s, hi, |s|)
            && NoEdgeWhitespace(s[lo..hi])
            && NormalizeEmail(s) == LowerCase(s[lo..hi])
  {
    TrimSlice(s);
    TrimClean(s);
  }

  lemma TrimStartSkip(s: string)
    requires s != [] && IsJsWhitespace(s[0])
    ensures TrimStart(s) == TrimStart(s[1..])
  {
  }

  lemma TrimStartKeep(s: string)
    requires s != [] && !IsJsWhitespace(s[0])
    ensures TrimStart(s) == s
  {
  }

  lemma TrimStartExample(s: string, w: string)
    requires w == "A@X.Com\n" && s == "  " + w
    ensures TrimStart(s) == w
  {
    TrimStartSkip(s);
    TrimStartSkip(s[1..]);
    assert s[1..][1..] == w;
    TrimStartKeep(w);
  }

  lemma TrimEndExample(s: string)
    requires s == "A@X.Com\n"
    ensures TrimEnd(s) == "A@X.Com"
  {
    assert s[..|s| - 1] == "A@X.Com";
  }

  lemma LowerCaseExample(s: string)
    requires s == "A@X.Com"
    ensures LowerCase(s) == "a@x.com"
  {
    var l := LowerCase(s);
    assert l[0] == 'a' && l[1] == '@' && l[2] == 'x' && l[3] == '.' && l[4] == 'c' && l[5] == 'o' && l[6] == 'm';
  }

  /** Example of the two transforms: surrounding blanks and a newline are
      dropped and the letters lower-cased. The whole email rule would refuse
      this input, because the format check runs first, on the untrimmed text;
      the example shows the transforms alone. */
  lemma EmailExample(s: string)
    requires s == "  A@X.Com\n"
    ensures NormalizeEmail(s) == "a@x.com"
  {
    assert s == "  " + "A@X.Com\n";
    TrimStartExample(s, "A@X.Com\n");
    TrimEndExample("A@X.Com\n");
    LowerCaseExample("A@X.Com");
  }
}
