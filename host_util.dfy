/**
 * The command-line validators of the synchronous messaging system
 * (`util::is_valid_hostname`, `util::is_port_valid`).
 *
 * The hostname pattern `^(label\.)+[a-zA-Z]{2,}$` is decided here by
 * splitting on dots: a label cannot contain a dot, so the dots are exactly
 * the label ends. `RegexLanguage` states the pattern's language directly,
 * and `HostnameMatchesRegex` shows the two agree.
 */
module HostUtil {
  import opened Wrappers
  import opened Text

  /** A character of a label: an ASCII letter, digit or hyphen. */
  predicate IsLabelChar(c: char)
  {
    IsAsciiAlphanumeric(c) || c == '-'
  }

  /**
   * `[a-zA-Z0-9](?:[a-zA-Z0-9-]{0,61}[a-zA-Z0-9])?`: 1 to 63 letters, digits
   * and hyphens, starting and ending with a letter or digit.
   */
  predicate IsLabel(l: string)
  {
    1 <= |l| <= 63
    && (forall i :: 0 <= i < |l| ==> IsLabelChar(l[i]))
    && IsAsciiAlphanumeric(l[0]) && IsAsciiAlphanumeric(l[|l| - 1])
  }

  /** `[a-zA-Z]{2,}`: at least two ASCII letters. */
  predicate IsTopLevel(t: string)
  {
    2 <= |t| && forall i :: 0 <= i < |t| ==> IsAsciiLetter(t[i])
  }

  /** Whether `parts`, the pieces between dots, are labels followed by a top-level name. */
  predicate WellDotted(parts: seq<string>)
  {
    |parts| >= 2
    && (forall k :: 0 <= k < |parts| - 1 ==> IsLabel(parts[k]))
    && IsTopLevel(parts[|parts| - 1])
  }

  /** `is_valid_hostname`: at most 255 bytes, and the pattern matches. */
  predicate IsValidHostname(hostname: string)
    ensures IsValidHostname(hostname) <==> ByteLen(hostname) <= 255 && RegexLanguage(hostname)
  {
    HostnameMatchesRegex(hostname);
    ByteLen(hostname) <= 255 && WellDotted(Split(hostname, '.'))
  }

  /** The language of the pattern: one or more labels each followed by a dot, then a top-level name. */
  ghost predicate RegexLanguage(h: string)
  {
    exists labels: seq<string>, top: string ::
      |labels| >= 1 && (forall k :: 0 <= k < |labels| ==> IsLabel(labels[k])) && IsTopLevel(top)
      && h == Join(labels + [top], ".")
  }

  /** Whatever the split-based decision accepts is in the pattern's language. */
  lemma WellDottedInLanguage(h: string)
    requires WellDotted(Split(h, '.'))
    ensures RegexLanguage(h)
  {
    var parts := Split(h, '.');
    JoinSplit(h, '.');
    WellDottedInLanguageParts(h, parts);
  }

  /** Well-dotted pieces that join into `h` are a witness that `h` is in the pattern's language. */
  lemma WellDottedInLanguageParts(h: string, parts: seq<string>)
    requires WellDotted(parts) && Join(parts, ".") == h
    ensures RegexLanguage(h)
  {
    var labels := parts[..|parts| - 1];
    var top := parts[|parts| - 1];
    assert labels + [top] == parts;
    assert forall k :: 0 <= k < |labels| ==> IsLabel(labels[k]);
    assert |labels| >= 1 && IsTopLevel(top) && h == Join(labels + [top], ".");
  }

  /** Every string of the pattern's language is accepted by the split-based decision. */
  lemma LanguageWellDotted(h: string, labels: seq<string>, top: string)
    requires |labels| >= 1 && (forall k :: 0 <= k < |labels| ==> IsLabel(labels[k])) && IsTopLevel(top)
    requires h == Join(labels + [top], ".")
    ensures WellDotted(Split(h, '.'))
  {
    var all := labels + [top];
    forall k | 0 <= k < |all| ensures '.' !in all[k] {
      if k < |labels| {
        assert all[k] == labels[k];
        assert forall i :: 0 <= i < |labels[k]| ==> IsLabelChar(labels[k][i]);
      } else {
        assert all[k] == top;
      }
    }
    SplitJoin(all, '.');
    assert Split(h, '.') == all;
  }

  /** The split-based decision accepts exactly the pattern's language. */
  lemma HostnameMatchesRegex(h: string)
    ensures WellDotted(Split(h, '.')) <==> RegexLanguage(h)
  {
    if WellDotted(Split(h, '.')) {
      WellDottedInLanguage(h);
    }
    if RegexLanguage(h) {
      var labels: seq<string>, top: string :|
        |labels| >= 1 && (forall k :: 0 <= k < |labels| ==> IsLabel(labels[k])) && IsTopLevel(top)
        && h == Join(labels + [top], ".");
      LanguageWellDotted(h, labels, top);
    }
  }

  /** A string without dots splits into itself. */
  lemma SplitWithoutDots(s: string)
    requires '.' !in s
    ensures Split(s, '.') == [s]
  {
    SplitJoin([s], '.');
  }

  /** A name without a dot is a single label with no top-level name, and is refused. */
  lemma UndottedRejected(h: string)
    requires '.' !in h
    ensures !IsValidHostname(h)
  {
    SplitWithoutDots(h);
  }

  /** A name whose last piece is a number, as in a dotted IPv4 address, has no top-level name. */
  lemma NumericLastRejected(front: string, last: string)
    requires '.' !in last && AllDigits(last)
    ensures !IsValidHostname(front + "." + last)
  {
    assert front + "." + last == front + ['.'] + last;
    SplitAround(front, last, '.');
    SplitWithoutDots(last);
    LastOfAppend(Split(front, '.'), last);
    if |last| >= 2 {
      assert !IsAsciiLetter(last[0]);
    }
  }

  lemma LastOfAppend(front: seq<string>, last: string)
    ensures var all := front + [last]; all[|all| - 1] == last
  {
  }

  /** The loopback forms are not accepted: a dotted IPv4 address and a single label. */
  lemma LoopbackRejected()
    ensures !IsValidHostname("127.0.0.1")
    ensures !IsValidHostname("localhost")
  {
    NumericLastRejected("127.0.0", "1");
    assert "127.0.0" + "." + "1" == "127.0.0.1";
    UndottedRejected("localhost");
  }

  lemma ExampleLabels()
    ensures IsLabel("example") && IsTopLevel("com")
  {
    var l := "example";
    assert forall i :: 0 <= i < |l| ==> IsAsciiLetter(l[i]);
  }

  lemma ExampleJoin()
    ensures Join(["example"] + ["com"], ".") == "example.com"
  {
    assert ["example"] + ["com"] == ["example", "com"];
    assert Join(["example", "com"], ".") == "example" + "." + Join(["com"], ".");
  }

  lemma ExampleByteLen()
    ensures ByteLen("example.com") <= 255
  {
    var h := "example.com";
    assert AllAscii(h);
    ByteLenAscii(h);
  }

  /** An ordinary domain name is accepted. */
  lemma DomainAccepted()
    ensures IsValidHostname("example.com")
  {
    ExampleLabels();
    ExampleJoin();
    LanguageWellDotted("example.com", ["example"], "com");
    ExampleByteLen();
  }

  // ---------------------------------------------------------------------------
  // ports

  const U16_MAX: nat := 65535

  predicate AllDigits(s: string)
  {
    forall i :: 0 <= i < |s| ==> IsAsciiDigit(s[i])
  }

  /** The digits part of an unsigned numeral: the text after an optional leading `'+'`. */
  function Unsigned(s: string): string
  {
    if s != [] && s[0] == '+' then s[1..] else s
  }

  /**
   * `str::parse::<u16>`: an optional `'+'` followed by at least one ASCII
   * digit, with a value that fits in 16 bits; leading zeros are allowed.
   */
  function ParseU16(s: string): (r: Option<nat>)
    ensures r.Some? ==> r.value <= U16_MAX
    ensures r.Some? ==> Unsigned(s) != [] && AllDigits(Unsigned(s)) && r.value == DecimalValue(Unsigned(s))
    ensures r.None? ==> Unsigned(s) == [] || !AllDigits(Unsigned(s)) || DecimalValue(Unsigned(s)) > U16_MAX
  {
    var digits := Unsigned(s);
    if digits == [] || !AllDigits(digits) then None
    else if DecimalValue(digits) > U16_MAX then None
    else Some(DecimalValue(digits))
  }

  /** `is_port_valid`: a 16-bit number other than 0. */
  predicate IsPortValid(port: string)
    ensures IsPortValid(port) <==>
      Unsigned(port) != [] && AllDigits(Unsigned(port)) && 1 <= DecimalValue(Unsigned(port)) <= U16_MAX
  {
    var p := ParseU16(port);
    p.Some? && p.value > 0
  }

  /** Every port number 1..65535, written in decimal, is valid and reads back as itself. */
  lemma PortNumeralValid(n: nat)
    requires 1 <= n <= U16_MAX
    ensures IsPortValid(NatToString(n))
    ensures ParseU16(NatToString(n)) == Some(n)
  {
    NatToStringValue(n);
    var s := NatToString(n);
    assert IsAsciiDigit(s[0]);
  }

  /** A text with a character that is neither a digit nor a leading `'+'` is not a port. */
  lemma NonNumericPortInvalid(port: string, i: nat)
    requires i < |port| && !IsAsciiDigit(port[i]) && !(i == 0 && port[i] == '+')
    ensures !IsPortValid(port)
  {
    var digits := Unsigned(port);
    if port[0] == '+' {
      assert digits[i - 1] == port[i];
    } else {
      assert digits[i] == port[i];
    }
  }

  lemma NumeralOf65535()
    ensures NatToString(65535) == "65535"
  {
    assert NatToString(6) == "6";
    assert NatToString(65) == "65";
    assert NatToString(655) == "655";
    assert NatToString(6553) == "6553";
  }

  lemma ValueOf65536()
    ensures DecimalValue("65536") == 65536
  {
    assert "65536"[..4] == "6553" && "6553"[..3] == "655" && "655"[..2] == "65" && "65"[..1] == "6";
  }

  /** The boundary cases: 0 and 65536 are refused; 1 and 65535 are accepted. */
  lemma PortBoundaries()
    ensures !IsPortValid("0")
    ensures IsPortValid("1")
    ensures IsPortValid("65535")
    ensures !IsPortValid("65536")
    ensures !IsPortValid("") && !IsPortValid("+")
  {
    assert DecimalValue("0") == 0;
    PortOneValid();
    PortMaxValid();
    PortPastMaxInvalid();
  }

  lemma PortOneValid()
    ensures IsPortValid("1")
  {
    PortNumeralValid(1);
    assert NatToString(1) == "1";
  }

  lemma PortMaxValid()
    ensures IsPortValid("65535")
  {
    PortNumeralValid(65535);
    NumeralOf65535();
  }

  lemma PortPastMaxInvalid()
    ensures !IsPortValid("65536")
  {
    ValueOf65536();
  }
}
