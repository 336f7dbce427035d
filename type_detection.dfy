/**
 * `detectType` (src/index.js:35-48): a raw value is classified as one of seven
 * labels. The empty check is made on the raw value; then one leading and one
 * trailing quote are removed, independently of each other, and the remaining
 * text is tried against fixed shapes in a fixed order. Each regular
 * expression of the source is written out as a predicate over character
 * classes; JavaScript's `\d` and `\w` are ASCII-only, as here.
 */
module TypeDetection {

  import opened Text

  /** The labels 'empty', 'boolean', 'number', 'url', 'email', 'ip' and 'string'. */
  datatype ValueType = Empty | Boolean | Number | Url | Email | Ip | String

  predicate IsQuote(c: char) {
    c == '"' || c == '\''
  }

  /** `\d` */
  predicate IsDigit(c: char) {
    '0' <= c <= '9'
  }

  /** `\w` */
  predicate IsWordChar(c: char) {
    ('a' <= c <= 'z') || ('A' <= c <= 'Z') || IsDigit(c) || c == '_'
  }

  /** `[\w.-]` */
  predicate IsEmailChar(c: char) {
    IsWordChar(c) || c == '.' || c == '-'
  }

  predicate AllEmailChars(s: string) {
    forall i :: 0 <= i < |s| ==> IsEmailChar(s[i])
  }

  predicate AllWordChars(s: string) {
    forall i :: 0 <= i < |s| ==> IsWordChar(s[i])
  }

  /**
   * `value.replace(/^["']|["']$/g, '')`: a quote at the start and a quote at
   * the end are each removed, whether or not the other one is there and
   * whether or not they are the same quote.
   */
  function StripQuotes(v: string): string {
    var start := if |v| > 0 && IsQuote(v[0]) then 1 else 0;
    var end := if |v| > start && IsQuote(v[|v| - 1]) then |v| - 1 else |v|;
    v[start..end]
  }

  /** Exactly one layer of quotes goes, on each side on its own, whatever the two quotes are. */
  lemma StripQuotesCases(q1: char, s: string, q2: char)
    requires IsQuote(q1) && IsQuote(q2)
    ensures StripQuotes([q1] + s + [q2]) == s
    ensures s == [] || !IsQuote(s[|s| - 1]) ==> StripQuotes([q1] + s) == s
    ensures s == [] || !IsQuote(s[0]) ==> StripQuotes(s + [q2]) == s
    ensures s == [] || (!IsQuote(s[0]) && !IsQuote(s[|s| - 1])) ==> StripQuotes(s) == s
  {
    assert ([q1] + s + [q2])[1..|s| + 1] == s;
    assert ([q1] + s)[1..] == s;
    assert (s + [q2])[..|s|] == s;
    assert s[0..|s|] == s;
  }

  /** A value that neither starts nor ends with a quote is left as it is. */
  lemma Unquoted(v: string)
    requires v != [] && !IsQuote(v[0]) && !IsQuote(v[|v| - 1])
    ensures StripQuotes(v) == v
  {
    assert v[0..|v|] == v;
  }

  /** `/^\d+$/` */
  predicate IsDigits(s: string) {
    |s| > 0 && forall i :: 0 <= i < |s| ==> IsDigit(s[i])
  }

  /** `/^https?:\/\/.+/`: the scheme, then at least one character that is not a line terminator. */
  predicate IsUrlText(s: string) {
    || (StartsWith(s, "http://") && |s| > 7 && !IsLineTerminator(s[7]))
    || (StartsWith(s, "https://") && |s| > 8 && !IsLineTerminator(s[8]))
  }

  /** `/^[\w.-]+@[\w.-]+\.\w+$/`: a local part, `@`, and a domain. */
  predicate IsEmailText(s: string) {
    exists i :: 0 < i < |s| && s[i] == '@' && AllEmailChars(s[..i]) && IsDomainText(s[i + 1..])
  }

  /** `[\w.-]+\.\w+` up to the end: the part after the last dot is a non-empty word. */
  predicate IsDomainText(d: string) {
    exists j :: 0 < j < |d| - 1 && d[j] == '.' && AllEmailChars(d[..j]) && AllWordChars(d[j + 1..])
  }

  /** The end of the run of digits that starts at `i`. */
  function DigitRunEnd(s: string, i: nat): (n: nat)
    requires i <= |s|
    ensures i <= n <= |s|
    ensures forall j :: i <= j < n ==> IsDigit(s[j])
    ensures n < |s| ==> !IsDigit(s[n])
    decreases |s| - i
  {
    if i < |s| && IsDigit(s[i]) then DigitRunEnd(s, i + 1) else i
  }

  /**
   * `groups` dot-separated digit groups start at `i`. A digit group followed
   * by a dot must be a whole digit run, so taking the longest run loses no match.
   */
  predicate DottedGroups(s: string, i: nat, groups: nat)
    requires i <= |s| && groups >= 1
    decreases groups
  {
    var n := DigitRunEnd(s, i);
    n > i && (groups == 1 || (n < |s| && s[n] == '.' && DottedGroups(s, n + 1, groups - 1)))
  }

  /** `/^\d+\.\d+\.\d+\.\d+/`: anchored at the start only. */
  predicate IsIpPrefix(s: string) {
    DottedGroups(s, 0, 4)
  }

  /** `detectType`: the first rule that matches decides. */
  function DetectType(value: string): (t: ValueType)
    ensures t == Empty <==> value == []
  {
    if value == [] then Empty
    else
      var cleaned := StripQuotes(value);
      if cleaned == "true" || cleaned == "false" then Boolean
      else if IsDigits(cleaned) then Number
      else if IsUrlText(cleaned) then Url
      else if IsEmailText(cleaned) then Email
      else if IsIpPrefix(cleaned) then Ip
      else String
  }

  /** A value without `@` is never email-shaped. */
  lemma NoAtSignNoEmail(s: string)
    requires '@' !in s
    ensures !IsEmailText(s)
  {
  }

  /** The boolean, number and url shapes exclude each other and every later shape. */
  lemma ShapesDisjoint(c: string)
    ensures c == "true" || c == "false" ==> !IsDigits(c) && !IsUrlText(c) && !IsEmailText(c) && !IsIpPrefix(c)
    ensures IsDigits(c) ==> !IsUrlText(c) && !IsEmailText(c) && !IsIpPrefix(c)
    ensures IsUrlText(c) ==> !IsEmailText(c) && !IsIpPrefix(c)
  {
    if c == "true" || c == "false" {
      assert !IsDigit(c[0]) && c[0] != 'h';
      assert DigitRunEnd(c, 0) == 0;
      assert !IsDigits(c);
      NoAtSignNoEmail(c);
    }
    if IsDigits(c) {
      assert DigitRunEnd(c, 0) == |c|;
      assert c[0] != 'h';
      assert '@' !in c by {
        assert forall i :: 0 <= i < |c| ==> c[i] != '@';
      }
      NoAtSignNoEmail(c);
    }
    if IsUrlText(c) {
      UrlIsNotEmail(c);
      assert c[0] == "http://"[0] == 'h';
      assert DigitRunEnd(c, 0) == 0;
    }
  }

  lemma UrlIsNotEmail(c: string)
    requires IsUrlText(c)
    ensures !IsEmailText(c)
  {
    var colon := if StartsWith(c, "http://") then 4 else 5;
    assert c[colon] == ':';
    assert forall k :: 0 <= k < colon ==> c[k] == "https"[k];
    forall i | 0 < i < |c| && c[i] == '@' ensures !AllEmailChars(c[..i]) {
      if i > colon {
        assert c[..i][colon] == ':';
      }
    }
  }

  /**
   * Because the earlier shapes exclude each other, the order of the rules
   * only matters between email and ip: each label is given exactly when its
   * own shape matches the quote-stripped value, ip only when email does not.
   */
  lemma DetectTypeByShape(value: string)
    requires value != []
    ensures var c := StripQuotes(value);
      && (DetectType(value) == Boolean <==> c == "true" || c == "false")
      && (DetectType(value) == Number <==> IsDigits(c))
      && (DetectType(value) == Url <==> IsUrlText(c))
      && (DetectType(value) == Email <==> IsEmailText(c))
      && (DetectType(value) == Ip <==> IsIpPrefix(c) && !IsEmailText(c))
      && (DetectType(value) == String <==>
            !(c == "true" || c == "false") && !IsDigits(c) && !IsUrlText(c) && !IsEmailText(c) && !IsIpPrefix(c))
  {
    ShapesDisjoint(StripQuotes(value));
  }

  /** Surrounding quotes, matching or not, on one side or both, do not change the label of a non-empty value. */
  lemma QuotesIgnored(q1: char, s: string, q2: char)
    requires IsQuote(q1) && IsQuote(q2)
    requires s != [] && !IsQuote(s[0]) && !IsQuote(s[|s| - 1])
    ensures DetectType([q1] + s + [q2]) == DetectType(s)
    ensures DetectType([q1] + s) == DetectType(s)
    ensures DetectType(s + [q2]) == DetectType(s)
  {
    StripQuotesCases(q1, s, q2);
  }

  /** Only the raw empty string is 'empty'; a pair of quotes with nothing inside is a 'string'. */
  lemma QuotedEmptyIsString(q1: char, q2: char)
    requires IsQuote(q1) && IsQuote(q2)
    ensures DetectType([q1, q2]) == String
    ensures DetectType([q1]) == String
  {
    StripQuotesCases(q1, [], q2);
    assert [q1] + [] + [q2] == [q1, q2];
    assert [q1] + [] == [q1];
    assert DigitRunEnd([], 0) == 0;
    assert !IsEmailText([]);
  }

  /** Test vectors of test/test.js:7-15, with the value `"8080"` of demo.js:35 and the empty value. */
  lemma DetectTypeVectors()
    ensures DetectType("123") == Number
    ensures DetectType("true") == Boolean
    ensures DetectType("false") == Boolean
    ensures DetectType("https://example.com") == Url
    ensures DetectType("test@example.com") == Email
    ensures DetectType("hello world") == String
    ensures DetectType("192.168.1.1") == Ip
    ensures DetectType("\"8080\"") == Number
    ensures DetectType("") == Empty
  {
    NumberVectors();
    UrlVector();
    EmailVector();
    StringVector();
    IpVector();
  }

  lemma NumberVectors()
    ensures DetectType("123") == Number
    ensures DetectType("true") == Boolean
    ensures DetectType("false") == Boolean
    ensures DetectType("\"8080\"") == Number
  {
    assert StripQuotes("123") == "123";
    assert StripQuotes("true") == "true";
    assert StripQuotes("false") == "false";
    assert StripQuotes("\"8080\"") == "8080";
    assert IsDigits("8080");
  }

  lemma UrlVector()
    ensures DetectType("https://example.com") == Url
  {
    var u := "https://example.com";
    assert StripQuotes(u) == u;
    assert !IsDigits(u) by { assert !IsDigit(u[0]); }
    assert u[..8] == "https://";
    assert IsUrlText(u);
  }

  lemma EmailVector()
    ensures DetectType("test@example.com") == Email
  {
    EmailVectorShape();
    DetectTypeByShape("test@example.com");
  }

  lemma EmailVectorShape()
    ensures StripQuotes("test@example.com") == "test@example.com"
    ensures IsEmailText("test@example.com")
  {
    Unquoted("test@example.com");
    EmailAt("test@example.com", 4, 12);
  }

  /** An `@` at `i` and a dot at `j` with the allowed characters around them make the email shape. */
  lemma EmailAt(e: string, i: nat, j: nat)
    requires 0 < i && i + 1 < j < |e| - 1 && e[i] == '@' && e[j] == '.'
    requires AllEmailChars(e[..i]) && AllEmailChars(e[i + 1..j]) && AllWordChars(e[j + 1..])
    ensures IsEmailText(e)
  {
    var d := e[i + 1..];
    assert d[..j - i - 1] == e[i + 1..j];
    assert d[j - i..] == e[j + 1..];
    assert d[j - i - 1] == '.';
    assert IsDomainText(d);
  }

  lemma StringVector()
    ensures DetectType("hello world") == String
  {
    var h := "hello world";
    Unquoted(h);
    assert !IsDigits(h) by { assert !IsDigit(h[0]); }
    assert !IsUrlText(h) by { assert h[..7] != "http://" && h[..8] != "https://"; }
    NoAtSignNoEmail(h);
    assert DigitRunEnd(h, 0) == 0;
  }

  lemma IpVector()
    ensures DetectType("192.168.1.1") == Ip
  {
    var ip := "192.168.1.1";
    Unquoted(ip);
    assert !IsDigits(ip) by { assert !IsDigit(ip[3]); }
    assert !IsUrlText(ip) by { assert ip[0] != 'h'; }
    NoAtSignNoEmail(ip);
    IpVectorShape();
  }

  lemma IpVectorShape()
    ensures IsIpPrefix("192.168.1.1")
  {
    var ip := "192.168.1.1";
    assert DigitRunEnd(ip, 10) == 11;
    assert DigitRunEnd(ip, 8) == 9;
    assert DigitRunEnd(ip, 4) == 7;
    assert DigitRunEnd(ip, 0) == 3;
  }

  /** The ip shape is a prefix test: whatever follows four digit groups, the value is still ip-shaped. */
  lemma {:induction false} IpPrefixExtends(s: string, t: string)
    requires IsIpPrefix(s)
    ensures IsIpPrefix(s + t)
  {
    GroupsExtend(s, t, 0, 4);
  }

  lemma {:induction false} GroupsExtend(s: string, t: string, i: nat, groups: nat)
    requires i <= |s| && groups >= 1 && DottedGroups(s, i, groups)
    ensures DottedGroups(s + t, i, groups)
    decreases groups
  {
    var n := DigitRunEnd(s, i);
    var m := DigitRunEnd(s + t, i);
    assert forall j :: i <= j < n ==> (s + t)[j] == s[j];
    assert m >= n;
    if groups > 1 {
      assert (s + t)[n] == s[n];
      assert m == n;
      GroupsExtend(s, t, n + 1, groups - 1);
    }
  }

  /** Where the shapes overlap, the earlier rule wins: an address-like local part still makes an email. */
  lemma EmailBeforeIp()
    ensures IsIpPrefix("1.2.3.4@host.io") && DetectType("1.2.3.4@host.io") == Email
  {
    EmailBeforeIpShape();
    DetectTypeByShape("1.2.3.4@host.io");
  }

  lemma EmailBeforeIpShape()
    ensures StripQuotes("1.2.3.4@host.io") == "1.2.3.4@host.io"
    ensures IsEmailText("1.2.3.4@host.io")
    ensures IsIpPrefix("1.2.3.4@host.io")
  {
    EmailLikeIpParts();
    EmailAt("1.2.3.4@host.io", 7, 12);
    EmailLikeIpShape();
  }

  lemma EmailLikeIpParts()
    ensures var v := "1.2.3.4@host.io";
      && StripQuotes(v) == v && |v| == 15 && v[7] == '@' && v[12] == '.'
      && AllEmailChars(v[..7]) && AllEmailChars(v[8..12]) && AllWordChars(v[13..])
  {
  }

  lemma EmailLikeIpShape()
    ensures IsIpPrefix("1.2.3.4@host.io")
  {
    var v := "1.2.3.4@host.io";
    assert DigitRunEnd(v, 6) == 7;
    assert DigitRunEnd(v, 4) == 5;
    assert DigitRunEnd(v, 2) == 3;
    assert DigitRunEnd(v, 0) == 1;
  }
}
