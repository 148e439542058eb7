/** The syntax rules FormB::validEmail applies to an address, as predicates on strings. */
module EmailRules {
  import opened Wrappers
  import opened Php

  const MaxLocalLength := 64
  const MaxDomainLength := 255

  /** The one diagnostic validEmail appends; it does not echo the address. */
  const InvalidEmailMessage := "The <strong>Email Address</strong> you supplied was invalid!"

  /** The DNS record kinds validEmail asks about. */
  datatype DnsRecord = MX | A

  /** An address cut at its last '@'. */
  datatype Address = Address(local: string, domain: string)

  /** The split validEmail makes with strrpos: everything before the LAST '@' is the
      local part, everything after it the domain. */
  function SplitAtLastAt(s: string): (r: Option<Address>)
    ensures r.None? <==> '@' !in s
    ensures r.Some? ==> s == r.value.local + "@" + r.value.domain && '@' !in r.value.domain
  {
    match LastIndexOf(s, '@')
    case None => None
    case Some(at) =>
      assert s == s[..at] + "@" + s[at + 1..];
      Some(Address(s[..at], s[at + 1..]))
  }

  /** Splitting at the last '@' finds exactly the parts an address was built from when
      the domain holds no '@'. */
  lemma SplitAtLastAtBuilt(local: string, domain: string)
    requires '@' !in domain
    ensures SplitAtLastAt(local + "@" + domain) == Some(Address(local, domain))
  {
    var s := local + "@" + domain;
    assert s[|local|] == '@';
    var at := LastIndexOf(s, '@').value;
    assert s[..at] == local && s[at + 1..] == domain;
  }

  /** The regular expression /[.]{2,}/ finds a run of dots. */
  function HasDotRun(s: string): (b: bool)
    ensures b <==> exists i :: 0 <= i < |s| - 1 && s[i] == '.' && s[i + 1] == '.'
    decreases |s|
  {
    if |s| < 2 then false
    else if s[0] == '.' && s[1] == '.' then true
    else
      var b := HasDotRun(s[1..]);
      assert b ==> exists i :: 0 <= i < |s| - 1 && s[i] == '.' && s[i + 1] == '.' by {
        if b {
          var j :| 0 <= j < |s| - 2 && s[1..][j] == '.' && s[1..][j + 1] == '.';
          assert s[j + 1] == '.' && s[j + 2] == '.';
        }
      }
      assert (exists i :: 0 <= i < |s| - 1 && s[i] == '.' && s[i + 1] == '.') ==> b by {
        if exists i :: 0 <= i < |s| - 1 && s[i] == '.' && s[i + 1] == '.' {
          var i :| 0 <= i < |s| - 1 && s[i] == '.' && s[i + 1] == '.';
          assert i > 0;
          assert s[1..][i - 1] == '.' && s[1..][i] == '.';
        }
      }
      b
  }

  /** The class [A-Za-z0-9\-\.] allowed in a domain. */
  predicate IsDomainChar(c: char)
  {
    'A' <= c <= 'Z' || 'a' <= c <= 'z' || '0' <= c <= '9' || c == '-' || c == '.'
  }

  /** The class [A-Za-z0-9!#%&`_=\/$'*+?^{}|~.-] allowed unescaped in an unquoted local part. */
  predicate IsLocalChar(c: char)
  {
    'A' <= c <= 'Z' || 'a' <= c <= 'z' || '0' <= c <= '9' || c in "!#%&`_=/$'*+?^{}|~.-"
  }

  /** The body of /^[A-Za-z0-9\-\.]+$/, read up to the end of the subject. */
  predicate DomainForm(d: string)
  {
    |d| > 0 && forall i :: 0 <= i < |d| ==> IsDomainChar(d[i])
  }

  /** The tokens of (\\.|[class])*: a backslash with the character after it (any but a
      newline, which '.' does not match), or one character of the class. A backslash is
      not in the class, so the tokens are read off deterministically. */
  predicate UnquotedTokens(w: string)
    decreases |w|
  {
    if w == [] then true
    else if w[0] == '\\' then |w| >= 2 && w[1] != '\n' && UnquotedTokens(w[2..])
    else IsLocalChar(w[0]) && UnquotedTokens(w[1..])
  }

  /** The body of /^(\\.|[class])+$/ read up to the end of the subject. */
  predicate UnquotedForm(w: string)
  {
    |w| > 0 && UnquotedTokens(w)
  }

  /** The strings matched by (\\"|[^"])*: each step takes either one character other
      than a quote or a backslash followed by a quote. */
  predicate QuotedTokens(w: string)
    decreases |w|
  {
    if w == [] then true
    else
      || (w[0] != '"' && QuotedTokens(w[1..]))
      || (|w| >= 2 && w[0] == '\\' && w[1] == '"' && QuotedTokens(w[2..]))
  }

  /** The body of /^"(\\"|[^"])+"$/ read up to the end of the subject. */
  predicate QuotedForm(w: string)
  {
    |w| >= 3 && w[0] == '"' && w[|w| - 1] == '"' && QuotedTokens(w[1..|w| - 1])
  }

  /** Whether a pattern of the form /^P$/ matches s. PCRE's '$' without the D modifier
      also matches just before a newline that ends the subject (pcreDollar = true); the
      strict reading (false) demands the end of the subject. */
  predicate EndAnchored(p: string -> bool, s: string, pcreDollar: bool)
  {
    p(s) || (pcreDollar && |s| > 0 && s[|s| - 1] == '\n' && p(s[..|s| - 1]))
  }

  /** The last rule of the chain: after deleting backslash pairs, the local part is an
      unquoted token string or a quoted string. */
  predicate LocalFormOk(local: string, pcreDollar: bool)
  {
    var w := RemoveBackslashPairs(local);
    EndAnchored(UnquotedForm, w, pcreDollar) || EndAnchored(QuotedForm, w, pcreDollar)
  }

  /** Every rule of the chain holds for the two parts. */
  predicate PartsValid(local: string, domain: string, pcreDollar: bool)
  {
    && 1 <= |local| <= MaxLocalLength
    && 1 <= |domain| <= MaxDomainLength
    && local[0] != '.' && local[|local| - 1] != '.'
    && !HasDotRun(local)
    && EndAnchored(DomainForm, domain, pcreDollar)
    && !HasDotRun(domain)
    && LocalFormOk(local, pcreDollar)
  }

  predicate ValidSyntaxWith(s: string, pcreDollar: bool)
  {
    match SplitAtLastAt(s)
    case None => false
    case Some(a) => PartsValid(a.local, a.domain, pcreDollar)
  }

  /** The syntax check validEmail performs, with the anchors read strictly. */
  predicate ValidSyntax(s: string)
  {
    ValidSyntaxWith(s, false)
  }

  /** The same check with PCRE's reading of '$', which is what the code runs. */
  predicate ValidSyntaxAsWritten(s: string)
  {
    ValidSyntaxWith(s, true)
  }

  /** Whether validEmail accepts an address: the syntax holds and, when the DNS check
      is on, the domain has an MX or an A record. */
  predicate EmailAccepted(email: string, chkDNS: bool, dns: (string, DnsRecord) -> bool)
  {
    match SplitAtLastAt(email)
    case None => false
    case Some(a) => PartsValid(a.local, a.domain, false) && (chkDNS ==> dns(a.domain, MX) || dns(a.domain, A))
  }

  /** With the DNS check off, acceptance is the syntax check alone. */
  lemma AcceptedWithoutDns(email: string, dns: (string, DnsRecord) -> bool)
    ensures EmailAccepted(email, false, dns) <==> ValidSyntax(email)
  {
  }

  /** An address without '@' is invalid. */
  lemma NoAtInvalid(s: string)
    requires '@' !in s
    ensures !ValidSyntax(s) && !ValidSyntaxAsWritten(s)
  {
  }

  /** The rule chain on an address written as local@domain (the domain without '@'):
      the lengths, the dots, the domain's characters and the local part's form each
      have to hold, and together they suffice. */
  lemma ValidSyntaxRules(local: string, domain: string)
    requires '@' !in domain
    ensures ValidSyntax(local + "@" + domain) <==>
      && 1 <= |local| <= 64
      && 1 <= |domain| <= 255
      && local[0] != '.' && local[|local| - 1] != '.'
      && !(exists i :: 0 <= i < |local| - 1 && local[i] == '.' && local[i + 1] == '.')
      && (forall i :: 0 <= i < |domain| ==> IsDomainChar(domain[i]))
      && !(exists i :: 0 <= i < |domain| - 1 && domain[i] == '.' && domain[i + 1] == '.')
      && (UnquotedForm(RemoveBackslashPairs(local)) || QuotedForm(RemoveBackslashPairs(local)))
  {
    SplitAtLastAtBuilt(local, domain);
  }

  /** A quoted body is accepted exactly when every '"' in it follows a backslash. */
  lemma {:induction false} QuotedTokensIff(w: string)
    ensures QuotedTokens(w) <==> forall j :: 0 <= j < |w| && w[j] == '"' ==> j > 0 && w[j - 1] == '\\'
    decreases |w|
  {
    if w != [] {
      QuotedTokensIff(w[1..]);
      if |w| >= 2 {
        QuotedTokensIff(w[2..]);
      }
      var escaped := forall j :: 0 <= j < |w| && w[j] == '"' ==> j > 0 && w[j - 1] == '\\';
      if escaped {
        assert w[0] != '"';
        if |w| >= 2 && w[1] == '"' {
          assert w[0] == '\\';
          forall j | 0 <= j < |w[2..]| && w[2..][j] == '"' ensures j > 0 && w[2..][j - 1] == '\\' {
            assert w[j + 2] == '"';
          }
        } else {
          forall j | 0 <= j < |w[1..]| && w[1..][j] == '"' ensures j > 0 && w[1..][j - 1] == '\\' {
            assert w[j + 1] == '"';
          }
        }
      }
      if QuotedTokens(w) {
        if w[0] != '"' && QuotedTokens(w[1..]) {
          forall j | 0 <= j < |w| && w[j] == '"' ensures j > 0 && w[j - 1] == '\\' {
            assert w[1..][j - 1] == '"';
          }
        } else {
          forall j | 0 <= j < |w| && w[j] == '"' ensures j > 0 && w[j - 1] == '\\' {
            if j >= 2 { assert w[2..][j - 2] == '"'; }
          }
        }
      }
    }
  }

  /** A string made of class characters only is an unquoted token string. */
  lemma {:induction false} UnquotedFromClassChars(w: string)
    requires forall i :: 0 <= i < |w| ==> IsLocalChar(w[i])
    ensures UnquotedTokens(w)
    decreases |w|
  {
    if w != [] {
      assert w[0] != '\\';
      UnquotedFromClassChars(w[1..]);
    }
  }

  /** An unquoted token string never holds a newline. */
  lemma {:induction false} UnquotedNoNewline(w: string)
    requires UnquotedTokens(w)
    ensures '\n' !in w
    decreases |w|
  {
    if w != [] {
      if w[0] == '\\' {
        UnquotedNoNewline(w[2..]);
        assert w == w[..2] + w[2..];
      } else {
        UnquotedNoNewline(w[1..]);
        assert w == [w[0]] + w[1..];
      }
    }
  }

  /** With the anchors read strictly, an accepted address has no stray trailing newline:
      the domain holds none, and neither does the end of the local part's checked form. */
  lemma ValidSyntaxNoTrailingNewline(local: string, domain: string)
    requires '@' !in domain && ValidSyntax(local + "@" + domain)
    ensures '\n' !in domain
    ensures var w := RemoveBackslashPairs(local); |w| > 0 && w[|w| - 1] != '\n'
  {
    SplitAtLastAtBuilt(local, domain);
    PartsNoTrailingNewline(local, domain);
  }

  /** The same, for the two parts once they are split. */
  lemma PartsNoTrailingNewline(local: string, domain: string)
    requires PartsValid(local, domain, false)
    ensures '\n' !in domain
    ensures var w := RemoveBackslashPairs(local); |w| > 0 && w[|w| - 1] != '\n'
  {
    assert DomainForm(domain);
    var w := RemoveBackslashPairs(local);
    if UnquotedForm(w) {
      UnquotedNoNewline(w);
      assert w[|w| - 1] in w;
    }
  }

  /** Appending a character other than a backslash commutes with deleting backslash pairs. */
  lemma {:induction false} RemoveBackslashPairsSnoc(s: string, c: char)
    requires c != '\\'
    ensures RemoveBackslashPairs(s + [c]) == RemoveBackslashPairs(s) + [c]
    decreases |s|
  {
    var t := s + [c];
    if s == [] {
      assert t == [c];
    } else if |s| >= 2 && s[0] == '\\' && s[1] == '\\' {
      assert t[2..] == s[2..] + [c];
      calc {
        RemoveBackslashPairs(t);
        RemoveBackslashPairs(s[2..] + [c]);
        { RemoveBackslashPairsSnoc(s[2..], c); }
        RemoveBackslashPairs(s[2..]) + [c];
      }
    } else {
      assert t[1..] == s[1..] + [c];
      calc {
        RemoveBackslashPairs(t);
        [s[0]] + RemoveBackslashPairs(s[1..] + [c]);
        { RemoveBackslashPairsSnoc(s[1..], c); }
        [s[0]] + (RemoveBackslashPairs(s[1..]) + [c]);
        ([s[0]] + RemoveBackslashPairs(s[1..])) + [c];
      }
    }
  }

  /** Appending a character other than '.' creates no run of dots. */
  lemma NoDotRunSnoc(s: string, c: char)
    requires c != '.' && !HasDotRun(s)
    ensures !HasDotRun(s + [c])
  {
    var t := s + [c];
    forall i | 0 <= i < |t| - 1 ensures !(t[i] == '.' && t[i + 1] == '.') {
      assert t[i] == s[i];
      if i + 1 < |s| { assert t[i + 1] == s[i + 1]; }
    }
  }

  /** Every rule that holds with the strict anchors also holds with PCRE's. */
  lemma PartsValidAsWritten(local: string, domain: string)
    requires PartsValid(local, domain, false)
    ensures PartsValid(local, domain, true)
  {
  }

  /** The parts of "a@b.com" pass every rule. */
  lemma PlainParts()
    ensures PartsValid("a", "b.com", false)
  {
    assert RemoveBackslashPairs("a") == "a" by {
      assert "a"[1..] == [];
    }
    assert UnquotedTokens("a") by {
      assert "a"[1..] == [];
    }
    assert !HasDotRun("b.com") by {
      var d := "b.com";
      forall i | 0 <= i < |d| - 1 ensures !(d[i] == '.' && d[i + 1] == '.') {
        assert d[i] != '.' || d[i + 1] != '.';
      }
    }
  }

  /** Examples: a plain address, a doubled dot, no '@' at all, and the empty string. */
  lemma ExamplePlain()
    ensures ValidSyntax("a@b.com")
  {
    assert "a@b.com" == "a" + "@" + "b.com";
    SplitAtLastAtBuilt("a", "b.com");
    PlainParts();
  }

  lemma ExampleDoubleDot()
    ensures !ValidSyntax("a..b@b.com")
  {
    assert "a..b@b.com" == "a..b" + "@" + "b.com";
    SplitAtLastAtBuilt("a..b", "b.com");
    assert "a..b"[1] == '.' && "a..b"[2] == '.';
  }

  lemma ExampleNoAt()
    ensures !ValidSyntax("noatsign")
    ensures !ValidSyntax("")
  {
    NoAtInvalid("noatsign");
  }

  /** As written, the domain rule (a /^...$/ pattern) lets a trailing newline through: any
      address the strict rules accept is still accepted with "\n" after its domain, as in
      "a@b.com\n", which the strict rules reject. */
  lemma DomainNewlineAsWritten(local: string, domain: string)
    requires '@' !in domain && |domain| < MaxDomainLength
    requires ValidSyntax(local + "@" + domain)
    ensures ValidSyntaxAsWritten(local + "@" + (domain + "\n"))
    ensures !ValidSyntax(local + "@" + (domain + "\n"))
  {
    var d := domain + "\n";
    assert '@' !in d by { assert forall i :: 0 <= i < |domain| ==> d[i] == domain[i]; }
    SplitAtLastAtBuilt(local, domain);
    SplitAtLastAtBuilt(local, d);
    PartsDomainNewline(local, domain);
  }

  /** The same, for the two parts once they are split. */
  lemma PartsDomainNewline(local: string, domain: string)
    requires PartsValid(local, domain, false) && |domain| < MaxDomainLength
    ensures PartsValid(local, domain + "\n", true)
    ensures !PartsValid(local, domain + "\n", false)
  {
    var d := domain + "\n";
    assert d[..|d| - 1] == domain;
    assert !DomainForm(d) by { assert !IsDomainChar(d[|d| - 1]); }
    NoDotRunSnoc(domain, '\n');
  }

  /** "a@b.com\n" is accepted as written and refused by the strict rules. */
  lemma DomainNewlineExample()
    ensures ValidSyntaxAsWritten("a@b.com\n") && !ValidSyntax("a@b.com\n")
  {
    assert "a@b.com\n" == "a" + "@" + ("b.com" + "\n");
    assert '@' !in "b.com\n";
    SplitAtLastAtBuilt("a", "b.com" + "\n");
    PlainParts();
    PartsDomainNewline("a", "b.com");
  }

  /** The local-part form rule with "\n" appended: PCRE's '$' still accepts it, the strict
      reading does not. */
  lemma LocalFormNewline(local: string)
    requires LocalFormOk(local, false)
    ensures LocalFormOk(local + "\n", true)
    ensures !LocalFormOk(local + "\n", false)
  {
    var w := RemoveBackslashPairs(local);
    RemoveBackslashPairsSnoc(local, '\n');
    var w' := RemoveBackslashPairs(local + "\n");
    assert w' == w + "\n";
    assert w'[..|w'| - 1] == w;
    assert !UnquotedForm(w') by {
      if UnquotedTokens(w') { UnquotedNoNewline(w'); }
    }
  }

  /** As written, the local-part rules let a trailing newline through as well: with "\n"
      after the local part, as in "a\n@b.com", an accepted address stays accepted. */
  lemma LocalNewlineAsWritten(local: string, domain: string)
    requires '@' !in domain && |local| < MaxLocalLength
    requires ValidSyntax(local + "@" + domain)
    ensures ValidSyntaxAsWritten((local + "\n") + "@" + domain)
    ensures !ValidSyntax((local + "\n") + "@" + domain)
  {
    SplitAtLastAtBuilt(local, domain);
    SplitAtLastAtBuilt(local + "\n", domain);
    PartsLocalNewline(local, domain);
  }

  /** The same, for the two parts once they are split. */
  lemma PartsLocalNewline(local: string, domain: string)
    requires PartsValid(local, domain, false) && |local| < MaxLocalLength
    ensures PartsValid(local + "\n", domain, true)
    ensures !PartsValid(local + "\n", domain, false)
  {
    var l := local + "\n";
    LocalFormNewline(local);
    NoDotRunSnoc(local, '\n');
    PartsValidAsWritten(local, domain);
    assert l[0] == local[0] && l[|l| - 1] == '\n';
    assert !LocalFormOk(l, false);
    assert PartsValid(l, domain, true);
  }

  /** "a\n@b.com" is accepted as written and refused by the strict rules. */
  lemma LocalNewlineExample()
    ensures ValidSyntaxAsWritten("a\n@b.com") && !ValidSyntax("a\n@b.com")
  {
    assert "a\n@b.com" == ("a" + "\n") + "@" + "b.com";
    SplitAtLastAtBuilt("a" + "\n", "b.com");
    PlainParts();
    PartsLocalNewline("a", "b.com");
  }
}
