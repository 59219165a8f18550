/** Which addresses the backfill takes for the same: case, tags, and on gmail dots. */
module EmailForms {
  import opened Ascii
  import opened Options
  import opened EmailBackfill

  function Address(local: string, domain: string): string {
    local + "@" + domain
  }

  /** Case does not matter. */
  lemma SameInAnyCase(a: string, b: string)
    requires Lower(a) == Lower(b)
    ensures Norm(a) == Norm(b)
  {
    NormOfLower(a);
    NormOfLower(b);
  }

  lemma NormOfLower(email: string)
    ensures Norm(Lower(email)) == Norm(email)
  {
    LowerKeepsSigns(email, '@');
    BeforeOfLower(email, '@');
    AfterOfLower(email, '@');
    BeforeOfLower(After(email, '@'), '@');
    LowerTwice(Before(email, '@'));
    LowerTwice(Before(After(email, '@'), '@'));
  }

  lemma LowerTwice(s: string)
    ensures Lower(Lower(s)) == Lower(s)
  {}

  lemma {:induction false} BeforeOfLower(s: string, c: char)
    requires c == '@'
    ensures Before(Lower(s), c) == Lower(Before(s, c))
  {
    if s != "" {
      BeforeOfLower(s[1..], c);
      assert Lower(s)[1..] == Lower(s[1..]);
      assert LowerChar(s[0]) == c <==> s[0] == c;
    }
  }

  lemma {:induction false} AfterOfLower(s: string, c: char)
    requires c == '@'
    ensures After(Lower(s), c) == Lower(After(s, c))
  {
    if s != "" {
      AfterOfLower(s[1..], c);
      assert Lower(s)[1..] == Lower(s[1..]);
      assert LowerChar(s[0]) == c <==> s[0] == c;
    }
  }

  lemma NormOf(local: string, domain: string)
    requires '@' !in local && '@' !in domain
    ensures var reduced := Reduced(local, Folded(domain));
            Norm(Address(local, domain)) == if reduced == "" then None else Some(reduced + "@" + Folded(domain))
  {
    PlainNorm(local, domain);
  }

  /** A tag does not matter, nor a second one. */
  lemma SameWithTag(local: string, tag: string, domain: string)
    requires '@' !in local && '@' !in tag && '@' !in domain
    ensures Norm(Address(local + "+" + tag, domain)) == Norm(Address(local, domain))
  {
    NormOf(local, domain);
    NormOf(local + "+" + tag, domain);
    assert Lower(local + "+" + tag) == Lower(local) + ("+" + Lower(tag));
    UntaggedInFront(Lower(local), Lower(tag));
  }

  lemma UntaggedInFront(local: string, tag: string)
    ensures Before(local + ("+" + tag), '+') == Before(local, '+')
  {
    if '+' in local {
      BeforeInPrefix(local, "+" + tag, '+');
    } else {
      BeforeAfterPrefix(local, "+" + tag, '+');
      BeforeWithout(local, '+');
    }
  }

  /** googlemail.com is gmail.com. */
  lemma SameOnGooglemail(local: string)
    requires '@' !in local
    ensures Norm(Address(local, "googlemail.com")) == Norm(Address(local, "gmail.com"))
  {
    FoldedGmail();
    NormOf(local, "googlemail.com");
    NormOf(local, "gmail.com");
  }

  lemma FoldedGmail()
    ensures Folded("gmail.com") == "gmail.com" == Folded("googlemail.com")
  {
    LowerOfLower("gmail.com");
    LowerOfLower("googlemail.com");
  }

  /** On gmail.com a dot does not matter. */
  lemma SameWithDotOnGmail(a: string, b: string)
    requires '@' !in a && '@' !in b
    ensures Norm(Address(a + "." + b, "gmail.com")) == Norm(Address(a + b, "gmail.com"))
  {
    FoldedGmail();
    NormOf(a + "." + b, "gmail.com");
    NormOf(a + b, "gmail.com");
    assert Lower(a + "." + b) == Lower(a) + ("." + Lower(b)) && Lower(a + b) == Lower(a) + Lower(b);
    DotGone(Lower(a), Lower(b));
  }

  lemma DotGone(a: string, b: string)
    ensures Strip(Before(a + ("." + b), '+'), '.') == Strip(Before(a + b, '+'), '.')
  {
    if '+' in a {
      BeforeInPrefix(a, "." + b, '+');
      BeforeInPrefix(a, b, '+');
    } else {
      BeforeAfterPrefix(a, "." + b, '+');
      BeforeAfterPrefix(a, b, '+');
      assert ("." + b)[1..] == b;
      assert Before("." + b, '+') == "." + Before(b, '+');
      StripOfSum(a, "." + Before(b, '+'), '.');
      StripOfSum(a, Before(b, '+'), '.');
      assert ("." + Before(b, '+'))[1..] == Before(b, '+');
    }
  }

  lemma {:induction false} StripOfSum(a: string, b: string, c: char)
    ensures Strip(a + b, c) == Strip(a, c) + Strip(b, c)
  {
    if a == "" {
      assert a + b == b;
    } else {
      assert (a + b)[1..] == a[1..] + b;
      StripOfSum(a[1..], b, c);
    }
  }

  /** On other domains everything before the tag stays, dots too. */
  lemma DotsStayElsewhere(local: string, domain: string)
    requires local != "" && '@' !in local && '+' !in local && '@' !in domain
    requires Lower(domain) != "gmail.com" && Lower(domain) != "googlemail.com"
    ensures Norm(Address(local, domain)) == Some(Lower(local) + "@" + Lower(domain))
  {
    NormOf(local, domain);
    LowerKeepsSigns(local, '+');
    BeforeWithout(Lower(local), '+');
  }

  /** And on gmail.com everything but dots. */
  lemma LettersStayOnGmail(local: string)
    requires local != "" && '@' !in local && '+' !in local && '.' !in local
    ensures Norm(Address(local, "gmail.com")) == Some(Lower(local) + "@gmail.com")
  {
    FoldedGmail();
    NormOf(local, "gmail.com");
    LowerKeepsSigns(local, '+');
    LowerKeepsSigns(local, '.');
    BeforeWithout(Lower(local), '+');
    StripHasNone(Lower(local), '.');
    assert Lower(local) + "@" + "gmail.com" == Lower(local) + "@gmail.com";
  }

  /** With nothing before the at sign, or no at sign, there is no address. */
  lemma NothingLeft(domain: string, email: string)
    requires '@' !in domain && '@' !in email
    ensures Norm(Address("", domain)) == None && Norm(email) == None
  {
    NormOf("", domain);
    assert Lower("") == "";
  }

  /** The application folds an address with one at sign alike. */
  lemma ApplicationKeepsDots(local: string, domain: string)
    requires local != "" && '@' !in local && '+' !in local && domain != "" && '@' !in domain
    requires Lower(domain) != "gmail.com" && Lower(domain) != "googlemail.com"
    ensures AppNormalize(Address(local, domain)) == Lower(local) + "@" + Lower(domain)
  {
    var email := Address(local, domain);
    DotsStayElsewhere(local, domain);
    assert email == local + ['@'] + domain;
    BeforeOfSum(local, '@', domain);
    AgreesWithApplication(email);
  }
}
