/** Allocation of placeholder recipients for templates. */
module RecipientPlaceholders {
  import opened Counting
  import opened Decimal

  datatype Placeholder = Placeholder(name: string, email: string)

  function GeneratePlaceholder(index: nat): Placeholder {
    Placeholder("Recipient " + Render(index), Email(index))
  }

  function Email(index: nat): string {
    "recipient." + Render(index) + "@example.com"
  }

  lemma EmailInjective(m: nat, n: nat)
    ensures Email(m) == Email(n) <==> m == n
  {
    RenderInjective(m, n);
    if Email(m) == Email(n) {
      assert |Render(m)| == |Render(n)|;
      assert Email(m)[10..10 + |Render(m)|] == Render(m);
      assert Email(n)[10..10 + |Render(n)|] == Render(n);
    }
  }

  /** No recipient has the address of this index, but some recipient has that of each smaller positive one. */
  ghost predicate LeastFree(emails: seq<string>, index: nat) {
    index >= 1 && Email(index) !in emails && forall k :: 1 <= k < index ==> Email(k) in emails
  }

  predicate SpelledOut(placeholder: Placeholder, index: nat) {
    && placeholder.name == "Recipient " + Render(index)
    && placeholder.email == "recipient." + Render(index) + "@example.com"
  }

  /** Among the first |emails| + 1 positive indices one is free, so the loop never runs out. */
  lemma SomeIndexIsFree(emails: seq<string>) returns (index: nat)
    ensures 1 <= index <= |emails| + 1 && Email(index) !in emails
  {
    var candidates := seq(|emails| + 1, i requires 0 <= i => Email(i + 1));
    forall i, j | 0 <= i < j < |candidates|
      ensures candidates[i] != candidates[j]
    {
      EmailInjective(i + 1, j + 1);
    }
    var free := Pigeonhole(candidates, emails);
    index := free + 1;
  }

  /** The address of the result is always free, and its index the least positive one that is. */
  method GenerateAvailablePlaceholder(emails: seq<string>) returns (placeholder: Placeholder)
    ensures placeholder.email !in emails
    ensures exists index: nat :: SpelledOut(placeholder, index) && 1 <= index <= |emails| + 1 &&
                                 forall k :: 1 <= k < index ==> "recipient." + Render(k) + "@example.com" in emails
    ensures exists index: nat :: LeastFree(emails, index) && index <= |emails| + 1 &&
                            placeholder == GeneratePlaceholder(index)
  {
    placeholder := GeneratePlaceholder(0);
    var i := 1;
    while i <= |emails| + 1
      invariant 1 <= i <= |emails| + 2
      invariant forall k :: 1 <= k < i ==> Email(k) in emails
    {
      placeholder := GeneratePlaceholder(i);
      if placeholder.email !in emails {
        assert LeastFree(emails, i) && SpelledOut(placeholder, i);
        assert forall k :: 1 <= k < i ==> Email(k) == "recipient." + Render(k) + "@example.com";
        return;
      }
      i := i + 1;
    }
    var free := SomeIndexIsFree(emails);
    assert false;
  }

  // ----- the recogniser of placeholder addresses -----

  function Lower(c: char): char {
    if 'A' <= c <= 'Z' then c + 32 as char else c
  }

  /** A case-insensitive match of `recipient\.\d+@documenso\.com` that starts at `i` and whose digits end at `j`. */
  predicate MatchesAt(email: string, i: nat, j: nat) {
    var prefix, suffix := "recipient.", "@documenso.com";
    && i + |prefix| < j && j + |suffix| <= |email|
    && (forall k :: 0 <= k < |prefix| ==> Lower(email[i + k]) == prefix[k])
    && AllDigits(email[i + |prefix|..j])
    && (forall k :: 0 <= k < |suffix| ==> Lower(email[j + k]) == suffix[k])
  }

  predicate IsPlaceholderEmail(email: string) {
    exists i, j :: 0 <= i < j < |email| && MatchesAt(email, i, j)
  }

  /**
   * The recogniser and the generator name different domains: no generated address is recognised, whatever its
   * index.
   */
  lemma GeneratedEmailsAreNotRecognised(index: nat)
    ensures !IsPlaceholderEmail(Email(index))
  {
    var email, digits := Email(index), Render(index);
    ValueOfRender(index);
    assert email == "recipient." + digits + "@example.com";
    forall i, j | 0 <= i < j < |email|
      ensures !MatchesAt(email, i, j)
    {
      assert MatchesAt(email, i, j) ==> Lower(email[j + 0]) == "@documenso.com"[0] == '@';
      OnlyAtSign(digits, j);
    }
  }

  /** The only at sign of a generated address comes right after the digits. */
  lemma OnlyAtSign(digits: string, j: nat)
    requires AllDigits(digits) && j < 10 + |digits| + 12
    ensures var email := "recipient." + digits + "@example.com";
            |email| == 10 + |digits| + 12 && (Lower(email[j]) == '@' ==> j == 10 + |digits|)
  {
    var email := "recipient." + digits + "@example.com";
    if j < 10 {
      assert email[j] == "recipient."[j];
      assert j == 0 || j == 1 || j == 2 || j == 3 || j == 4 || j == 5 || j == 6 || j == 7 || j == 8 || j == 9;
    } else if j < 10 + |digits| {
      assert email[j] == digits[j - 10];
    } else {
      var k := j - 10 - |digits|;
      assert email[j] == "@example.com"[k];
      assert k == 0 || k == 1 || k == 2 || k == 3 || k == 4 || k == 5 || k == 6 || k == 7 || k == 8 || k == 9 ||
             k == 10 || k == 11;
    }
  }

  /** What the recogniser is for: the word and the domain it names, in either case, around a number, anywhere. */
  lemma NamedDomainIsRecognised(before: string, n: nat, after: string)
    ensures IsPlaceholderEmail(before + ("recipient." + Render(n) + "@documenso.com") + after)
    ensures IsPlaceholderEmail(before + ("RECIPIENT." + Render(n) + "@DOCUMENSO.COM") + after)
  {
    ValueOfRender(n);
    Recognised(before, "recipient.", Render(n), "@documenso.com", after);
    Recognised(before, "RECIPIENT.", Render(n), "@DOCUMENSO.COM", after);
  }

  lemma Recognised(before: string, word: string, digits: string, domain: string, after: string)
    requires |word| == 10 && |domain| == 14 && digits != "" && AllDigits(digits)
    requires forall k :: 0 <= k < 10 ==> Lower(word[k]) == "recipient."[k]
    requires forall k :: 0 <= k < 14 ==> Lower(domain[k]) == "@documenso.com"[k]
    ensures IsPlaceholderEmail(before + (word + digits + domain) + after)
  {
    var s := before + (word + digits + domain) + after;
    var i, j := |before|, |before| + 10 + |digits|;
    assert forall k :: 0 <= k < 10 ==> s[i + k] == word[k];
    assert s[i + 10..j] == digits;
    assert forall k :: 0 <= k < 14 ==> s[j + k] == domain[k];
    assert MatchesAt(s, i, j);
  }
}
