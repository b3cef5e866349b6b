/** The e-mail check of the lead forms: the shape test of the regular
    expression `^[^\s@]+@[^\s@]+\.[^\s@]+$`, then a deny-list of disposable
    mail providers matched against the lower-cased domain (script.js:31-42). */
module Email {
  import opened JsString

  /** The substrings that mark a disposable-mail domain, all lower case. */
  const TempEmailDomains: seq<string> := [
    "tempmail", "guerrillamail", "10minutemail", "mailinator",
    "throwaway", "fakeinbox", "yopmail", "trashmail", "temp-mail",
    "disposable", "sharklasers"
  ]

  /** Every deny-list entry is already lower case, so matching it against
      the lower-cased domain ignores the domain's case. */
  lemma DenyListLowerCase()
    ensures forall temp :: temp in TempEmailDomains ==> ToLower(temp) == temp
  {
    forall temp | temp in TempEmailDomains ensures ToLower(temp) == temp {
      ToLowerFixesLower(temp);
    }
  }

  /** A character the class `[^\s@]` admits. */
  predicate Plain(c: char) {
    c != '@' && !IsWhitespace(c)
  }

  predicate AllPlain(s: string) {
    forall i :: 0 <= i < |s| ==> Plain(s[i])
  }

  /** `s` matches the regular expression with its `@` at `k` and the `\.` at
      `j`: three non-empty runs of `[^\s@]` around them. */
  predicate ShapeAt(s: string, k: int, j: int) {
    && 0 < k && k + 1 < j && j + 1 < |s|
    && s[k] == '@' && s[j] == '.'
    && AllPlain(s[..k]) && AllPlain(s[k + 1..j]) && AllPlain(s[j + 1..])
  }

  /** The regular expression `^[^\s@]+@[^\s@]+\.[^\s@]+$`, read as a split:
      some choice of the `@` and the `.` matches. */
  ghost predicate MatchesShape(s: string) {
    exists k, j :: ShapeAt(s, k, j)
  }

  /** The domain `d` (the text after the `@`) has a `.` with text on both
      sides. */
  predicate HasInnerDot(d: string) {
    |d| >= 3 && '.' in d[1..|d| - 1]
  }

  /** The shape test, character by character: no whitespace anywhere, a
      single `@` that is not the first character, and a dotted domain. */
  function HasShape(s: string): bool {
    var k := IndexOf(s, '@');
    && (forall i :: 0 <= i < |s| ==> !IsWhitespace(s[i]))
    && 0 < k < |s|
    && '@' !in s[k + 1..]
    && HasInnerDot(s[k + 1..])
  }

  /** The text after the first `@`, or "" when there is none. */
  function Domain(s: string): string {
    var k := IndexOf(s, '@');
    if k < |s| then s[k + 1..] else ""
  }

  /** `isValidEmail`: the shape test, then no deny-list entry inside the
      lower-cased `email.split('@')[1]`. */
  function IsValidEmail(email: string): bool {
    if !HasShape(email) then false
    else
      var domain := ToLower(Split(email, '@')[1]);
      !exists temp | temp in TempEmailDomains :: Includes(domain, temp)
  }

  /** The domain `d` contains a deny-list entry somewhere. */
  ghost predicate Denied(d: string) {
    exists temp, i :: temp in TempEmailDomains && OccursAt(d, temp, i)
  }

  /** The character-level shape test accepts exactly the strings the regular
      expression matches. */
  lemma ShapeIsRegex(s: string)
    ensures HasShape(s) <==> MatchesShape(s)
  {
    var k := IndexOf(s, '@');
    if HasShape(s) {
      var d := s[k + 1..];
      var m := IndexOf(d[1..|d| - 1], '.');
      var j := k + 2 + m;
      assert s[j] == '.';
      forall i | 0 <= i < |s| && i != k ensures s[i] != '@' {
        if i > k { assert s[i] == d[i - k - 1]; }
      }
      assert ShapeAt(s, k, j);
    }
    if MatchesShape(s) {
      var k', j :| ShapeAt(s, k', j);
      forall i | 0 <= i < |s| ensures !IsWhitespace(s[i]) && (s[i] == '@' <==> i == k') {
        if i < k' {
          assert s[i] == s[..k'][i];
        } else if k' < i < j {
          assert s[i] == s[k' + 1..j][i - k' - 1];
        } else if j < i {
          assert s[i] == s[j + 1..][i - j - 1];
        }
      }
      assert k == k';
      var d := s[k + 1..];
      assert d[1..|d| - 1][j - k - 2] == '.';
    }
  }

  /** The domain `split` yields for a shape-valid address. */
  lemma SplitDomain(s: string)
    requires HasShape(s)
    ensures |Split(s, '@')| == 2 && Split(s, '@')[1] == Domain(s)
  {
    var k := IndexOf(s, '@');
    forall j | 0 <= j < |s| && j != k ensures s[j] != '@' {
      if j > k { assert s[j] == s[k + 1..][j - k - 1]; }
    }
    SplitOnce(s, '@', k);
  }

  /** The compiled search over the deny-list decides `Denied`. */
  lemma DeniedIffSearch(d: string)
    ensures (exists temp | temp in TempEmailDomains :: Includes(d, temp)) <==> Denied(d)
  {
    forall temp | temp in TempEmailDomains ensures Includes(d, temp) <==> exists i :: OccursAt(d, temp, i) {
      IncludesIffOccurs(d, temp);
    }
  }

  /** `isValidEmail` accepts exactly the strings that match the regular
      expression and whose lower-cased domain holds no deny-list entry. */
  lemma ValidEmailIff(email: string)
    ensures IsValidEmail(email) <==> MatchesShape(email) && !Denied(ToLower(Domain(email)))
  {
    ShapeIsRegex(email);
    if HasShape(email) {
      SplitDomain(email);
      DeniedIffSearch(ToLower(Domain(email)));
    }
  }

  /** Each way of failing the shape test makes `isValidEmail` false: not
      exactly one `@`, nothing before it, whitespace anywhere, or no `.` with
      text on both sides after it. */
  lemma MalformedRejected(email: string)
    ensures '@' !in email ==> !IsValidEmail(email)
    ensures (exists i, j :: 0 <= i < j < |email| && email[i] == '@' && email[j] == '@') ==> !IsValidEmail(email)
    ensures |email| > 0 && email[0] == '@' ==> !IsValidEmail(email)
    ensures (exists i :: 0 <= i < |email| && IsWhitespace(email[i])) ==> !IsValidEmail(email)
    ensures !HasInnerDot(Domain(email)) ==> !IsValidEmail(email)
  {
    var k := IndexOf(email, '@');
    if IsValidEmail(email) {
      assert 0 < k < |email|;
      forall i, j | 0 <= i < j < |email| && email[i] == '@' ensures email[j] != '@' {
        assert i == k;
        assert email[j] == email[k + 1..][j - k - 1];
      }
    }
  }

  /** For a shape-valid `local@domain` the single `@` is the one written
      between the two, so the domain is exactly `domain`. */
  lemma DomainOfJoin(local: string, domain: string)
    requires HasShape(local + "@" + domain)
    ensures Domain(local + "@" + domain) == domain
  {
    var s := local + "@" + domain;
    var k, n := IndexOf(s, '@'), |local|;
    assert s[n] == '@';
    assert n <= k by {
      forall i | k < i < |s| ensures s[i] != '@' {
        assert s[i] == s[k + 1..][i - k - 1];
      }
    }
    assert s[k + 1..] == domain;
  }

  /** `local@domain` and `local@` + lower-cased `domain` agree, index by index,
      on whitespace, `@` and `.`. */
  lemma LowerKeepsMarks(local: string, domain: string)
    ensures var s1, s2 := local + "@" + domain, local + "@" + ToLower(domain);
      && |s1| == |s2|
      && (forall i :: 0 <= i < |s1| ==> (IsWhitespace(s1[i]) <==> IsWhitespace(s2[i])))
      && (forall i :: 0 <= i < |s1| ==> (s1[i] == '@' <==> s2[i] == '@') && (s1[i] == '.' <==> s2[i] == '.'))
  {
    var s1, s2 := local + "@" + domain, local + "@" + ToLower(domain);
    var n := |local|;
    forall i | 0 <= i < |s1|
      ensures s2[i] == if i > n then LowerChar(s1[i]) else s1[i]
    {
      if i > n {
        assert s1[i] == domain[i - n - 1] && s2[i] == ToLower(domain)[i - n - 1];
      }
    }
  }

  /** The deny-list ignores case in the domain: only its lower-cased form is
      looked at, and lower-casing does not change the shape. */
  lemma DomainCaseIgnored(local: string, domain: string)
    ensures IsValidEmail(local + "@" + domain) == IsValidEmail(local + "@" + ToLower(domain))
  {
    var s1, s2 := local + "@" + domain, local + "@" + ToLower(domain);
    LowerKeepsMarks(local, domain);
    ShapeAgrees(s1, s2);
    if HasShape(s1) {
      SplitDomain(s1);
      SplitDomain(s2);
      DomainOfJoin(local, domain);
      DomainOfJoin(local, ToLower(domain));
      ToLowerIdempotent(domain);
    }
  }

  /** Two strings that agree, index by index, on being whitespace, `@` and `.`
      pass or fail the shape test together. */
  lemma ShapeAgrees(s1: string, s2: string)
    requires |s1| == |s2|
    requires forall i :: 0 <= i < |s1| ==> (IsWhitespace(s1[i]) <==> IsWhitespace(s2[i]))
    requires forall i :: 0 <= i < |s1| ==> (s1[i] == '@' <==> s2[i] == '@') && (s1[i] == '.' <==> s2[i] == '.')
    ensures HasShape(s1) <==> HasShape(s2)
  {
    var k := IndexOf(s1, '@');
    assert IndexOf(s2, '@') == k;
    if k < |s1| {
      var d1, d2 := s1[k + 1..], s2[k + 1..];
      assert ('@' in d1) <==> ('@' in d2) by {
        assert forall i :: 0 <= i < |d1| ==> d1[i] == s1[k + 1 + i] && d2[i] == s2[k + 1 + i];
      }
      if |d1| >= 3 {
        var e1, e2 := d1[1..|d1| - 1], d2[1..|d2| - 1];
        assert ('.' in e1) <==> ('.' in e2) by {
          assert forall i :: 0 <= i < |e1| ==> e1[i] == s1[k + 2 + i] && e2[i] == s2[k + 2 + i];
        }
      }
    }
  }

  /** The local part is never consulted beyond the shape test: two non-empty
      local parts of `[^\s@]` characters get the same verdict for a domain. */
  lemma LocalPartIgnored(local1: string, local2: string, domain: string)
    requires |local1| > 0 && AllPlain(local1)
    requires |local2| > 0 && AllPlain(local2)
    ensures IsValidEmail(local1 + "@" + domain) == IsValidEmail(local2 + "@" + domain)
  {
    var s1, s2 := local1 + "@" + domain, local2 + "@" + domain;
    PlainLocalPart(local1, domain);
    PlainLocalPart(local2, domain);
    if HasShape(s1) { SplitDomain(s1); }
    if HasShape(s2) { SplitDomain(s2); }
  }

  /** Behind a non-empty local part of `[^\s@]` characters, the first `@` is
      the one written after it, and the address is free of whitespace exactly
      when the domain is. */
  lemma PlainLocalPart(local: string, domain: string)
    requires |local| > 0 && AllPlain(local)
    ensures var s := local + "@" + domain;
      && IndexOf(s, '@') == |local| && s[|local| + 1..] == domain
      && ((forall i :: 0 <= i < |s| ==> !IsWhitespace(s[i])) <==> (forall i :: 0 <= i < |domain| ==> !IsWhitespace(domain[i])))
  {
    var s := local + "@" + domain;
    assert '@' !in local;
    IndexOfAfter(local, '@', domain);
    assert s[|local| + 1..] == domain;
    forall i | 0 <= i < |s|
      ensures s[i] == (if i < |local| then local[i] else if i == |local| then '@' else domain[i - |local| - 1])
    {
    }
  }

  /** `a@b.c` with three non-empty runs of `[^\s@]` has the shape, and its
      domain is `b.c`. */
  lemma ShapeOfParts(a: string, b: string, c: string)
    requires |a| > 0 && |b| > 0 && |c| > 0
    requires AllPlain(a) && AllPlain(b) && AllPlain(c)
    ensures HasShape(a + "@" + b + "." + c)
    ensures Domain(a + "@" + b + "." + c) == b + "." + c
  {
    var s := a + "@" + b + "." + c;
    var k, j := |a|, |a| + 1 + |b|;
    assert s[..k] == a && s[k + 1..j] == b && s[j + 1..] == c;
    assert ShapeAt(s, k, j);
    ShapeIsRegex(s);
    assert s == a + "@" + (b + "." + c);
    DomainOfJoin(a, b + "." + c);
  }

  /** A character of `t` shows up in any text that includes `t`. */
  lemma IncludedCharOccurs(s: string, t: string, c: char)
    requires c in t
    ensures Includes(s, t) ==> c in s
  {
    IncludesIffOccurs(s, t);
    if Includes(s, t) {
      var i :| OccursAt(s, t, i);
      var m :| 0 <= m < |t| && t[m] == c;
      assert s[i..i + |t|][m] == s[i + m];
    }
  }

  /** A domain without the letters t, g, 1, i, f, y, d and s holds no deny-list
      entry: each entry has one of them. */
  lemma MissingLettersClean(domain: string)
    requires 't' !in domain && 'g' !in domain && '1' !in domain && 'i' !in domain
    requires 'f' !in domain && 'y' !in domain && 'd' !in domain && 's' !in domain
    ensures !exists temp | temp in TempEmailDomains :: Includes(domain, temp)
  {
    IncludedCharOccurs(domain, "tempmail", 't');
    IncludedCharOccurs(domain, "guerrillamail", 'g');
    IncludedCharOccurs(domain, "10minutemail", '1');
    IncludedCharOccurs(domain, "mailinator", 'i');
    IncludedCharOccurs(domain, "throwaway", 't');
    IncludedCharOccurs(domain, "fakeinbox", 'f');
    IncludedCharOccurs(domain, "yopmail", 'y');
    IncludedCharOccurs(domain, "trashmail", 't');
    IncludedCharOccurs(domain, "temp-mail", 't');
    IncludedCharOccurs(domain, "disposable", 'd');
    IncludedCharOccurs(domain, "sharklasers", 's');
  }

  /** `example.com` holds no deny-list entry. */
  lemma ExampleDomainClean(domain: string)
    requires domain == "example.com"
    ensures !exists temp | temp in TempEmailDomains :: Includes(domain, temp)
  {
    assert 't' !in domain && 'g' !in domain && '1' !in domain && 'i' !in domain;
    assert 'f' !in domain && 'y' !in domain && 'd' !in domain && 's' !in domain;
    MissingLettersClean(domain);
  }

  /** A shape-valid address whose lower-cased domain holds no entry is
      accepted. */
  lemma CleanAccepted(s: string)
    requires HasShape(s)
    requires !exists temp | temp in TempEmailDomains :: Includes(ToLower(Domain(s)), temp)
    ensures IsValidEmail(s)
  {
    SplitDomain(s);
  }

  /** `user@example.com` has the shape, and its domain is `example.com`. */
  lemma PlainAddressShape(local: string, domain: string)
    requires local == "user" && domain == "example.com"
    ensures HasShape(local + "@" + domain) && Domain(local + "@" + domain) == domain
  {
    var name, tld := "example", "com";
    assert domain == name + "." + tld;
    ShapeOfParts(local, name, tld);
    assert local + "@" + domain == local + "@" + name + "." + tld;
  }

  /** A plain address at an ordinary domain, `user@example.com`, is accepted.
      (The sample addresses are parameters so that the verifier does not
      evaluate the whole check on a literal.) */
  lemma PlainAddressAccepted(local: string, domain: string)
    requires local == "user" && domain == "example.com"
    ensures IsValidEmail(local + "@" + domain)
  {
    PlainAddressShape(local, domain);
    ExampleDomainClean(domain);
    ToLowerFixesLower(domain);
    CleanAccepted(local + "@" + domain);
  }

  /** A disposable-provider word in the local part is harmless:
      `tempmail@example.com` is accepted. */
  lemma DisposableLocalPartAccepted(local: string, domain: string)
    requires local == "tempmail" && domain == "example.com"
    ensures IsValidEmail(local + "@" + domain)
  {
    var user := "user";
    PlainAddressAccepted(user, domain);
    LocalPartIgnored(user, local, domain);
  }

  /** An address whose lower-cased domain includes a deny-list entry is
      rejected, whatever the local part: an `@` inside the local part makes
      a second `@` and fails the shape test. */
  lemma DeniedDomainRejected(local: string, domain: string, temp: string)
    requires temp in TempEmailDomains && Includes(ToLower(domain), temp)
    ensures !IsValidEmail(local + "@" + domain)
  {
    var s := local + "@" + domain;
    if '@' in local {
      var k := IndexOf(s, '@');
      assert s[..|local|] == local;
      assert k < |local|;
      assert s[k + 1..][|local| - k - 1] == '@';
      assert !HasShape(s);
    } else {
      IndexOfAfter(local, '@', domain);
      assert s[|local| + 1..] == domain;
      if HasShape(s) {
        SplitDomain(s);
      }
    }
  }

  /** The lower case of `YopMail.com` starts with `yopmail`. */
  lemma YopMailIncluded(domain: string)
    requires domain == "YopMail.com"
    ensures Includes(ToLower(domain), "yopmail")
  {
    var lower := ToLower(domain);
    assert lower[..7] == "yopmail";
  }

  /** A provider name in mixed case in the domain is caught:
      `user@YopMail.com` is rejected. */
  lemma MixedCaseProviderRejected(local: string, domain: string)
    requires local == "user" && domain == "YopMail.com"
    ensures !IsValidEmail(local + "@" + domain)
  {
    YopMailIncluded(domain);
    DeniedDomainRejected(local, domain, "yopmail");
  }
}
