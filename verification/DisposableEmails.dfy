/** The check for throwaway e-mail providers, which also looks at every parent domain. */
module DisposableEmails {
  import opened Wrappers
  import opened Texts

  /** The last of the parts between at signs. */
  function DomainOf(lowered: string): string {
    var parts := Split(lowered, "@");
    parts[|parts| - 1]
  }

  /** The domain is what follows the last at sign, or the whole text when there is none. */
  lemma {:induction false} DomainFollowsLastAt(s: string)
    ensures var d := DomainOf(s);
            && '@' !in d && |d| <= |s| && s[|s| - |d|..] == d
            && (d == s || (|d| < |s| && s[|s| - |d| - 1] == '@'))
    decreases |s|
  {
    var at := IndexOf(s, "@");
    if at.None? {
      forall i | 0 <= i < |s|
        ensures s[i] != '@'
      {
        assert s[i..i + 1] == "@" <==> s[i] == '@';
        assert !OccursAt(s, "@", i);
      }
    } else {
      var rest := s[at.value + 1..];
      DomainFollowsLastAt(rest);
      assert DomainOf(s) == DomainOf(rest);
      assert s[at.value..at.value + 1][0] == '@';
    }
  }

  /** A label of the domain starts at position `i`. */
  predicate LabelAt(domain: string, i: int) {
    i == 0 || (0 < i <= |domain| && domain[i - 1] == '.')
  }

  /** `suffix` is the domain itself or what follows one of its dots, and is not empty. */
  ghost predicate IsParent(domain: string, suffix: string) {
    suffix != "" && exists i :: 0 <= i < |domain| && LabelAt(domain, i) && suffix == domain[i..]
  }

  method IsDisposableEmail(email: string, lower: string -> string, blacklist: set<string>, additional: seq<string>)
    returns (disposable: bool)
    ensures disposable <==>
            exists i :: IsDomainSuffix(lower(email), i) &&
                        (lower(email)[i..] in blacklist || lower(email)[i..] in additional)
  {
    ParentsListed(lower(email), blacklist, additional);
    var domain := DomainOf(lower(email));
    var currentDomain := domain;
    ghost var at := 0;
    while currentDomain != ""
      invariant 0 <= at <= |domain| && currentDomain == domain[at..] && LabelAt(domain, at)
      invariant forall i :: 0 <= i < at && LabelAt(domain, i) ==>
                  domain[i..] !in blacklist && domain[i..] !in additional
      decreases |currentDomain|
    {
      if currentDomain in blacklist || currentDomain in additional {
        assert IsParent(domain, currentDomain);
        return true;
      }
      var nextDot := IndexOf(currentDomain, ".");
      NextLabel(domain, at);
      if nextDot.None? {
        return false;
      }
      currentDomain := currentDomain[nextDot.value + 1..];
      at := at + nextDot.value + 1;
    }
    return false;
  }

  /** The label after a position starts right after the next dot. */
  lemma NextLabel(domain: string, at: nat)
    requires at <= |domain|
    ensures var next := IndexOf(domain[at..], ".");
            && (next.Some? ==> at + next.value < |domain| && LabelAt(domain, at + next.value + 1))
            && forall i :: at < i <= |domain| && LabelAt(domain, i) ==> next.Some? && at + next.value + 1 <= i
  {
    var rest := domain[at..];
    var next := IndexOf(rest, ".");
    if next.Some? {
      assert rest[next.value..next.value + 1][0] == '.';
    }
    forall i | at < i <= |domain| && LabelAt(domain, i)
      ensures next.Some? && at + next.value + 1 <= i
    {
      assert rest[i - 1 - at..i - at] == ".";
      assert OccursAt(rest, ".", i - 1 - at);
    }
  }

  /** `t[i..]` holds no at sign and follows an at sign or a dot, if anything. */
  predicate IsDomainSuffix(t: string, i: int) {
    0 <= i < |t| && '@' !in t[i..] && (i == 0 || t[i - 1] == '@' || t[i - 1] == '.')
  }

  /** A suffix without at signs starts behind every at sign. */
  lemma BehindAtSign(t: string, i: int, n: int)
    requires IsDomainSuffix(t, i) && 0 <= n <= |t| && (n == 0 || t[n - 1] == '@')
    ensures n <= i
  {
    forall j | i <= j < |t|
      ensures t[j] != '@'
    {
      assert t[i..][j - i] == t[j];
    }
  }

  lemma LabelInAddress(t: string, n: int, k: int)
    requires 0 <= n <= |t| && '@' !in t[n..] && (n == 0 || t[n - 1] == '@')
    requires 0 <= k < |t| - n && LabelAt(t[n..], k)
    ensures IsDomainSuffix(t, n + k) && t[n..][k..] == t[n + k..]
  {
    assert t[n..][k..] == t[n + k..];
    assert k > 0 ==> t[n..][k - 1] == t[n + k - 1];
    forall j | n + k <= j < |t|
      ensures t[j] != '@'
    {
      assert t[n..][j - n] == t[j];
    }
  }

  lemma DomainStart(t: string) returns (n: int)
    ensures 0 <= n <= |t| && DomainOf(t) == t[n..] && '@' !in t[n..] && (n == 0 || t[n - 1] == '@')
  {
    DomainFollowsLastAt(t);
    n := |t| - |DomainOf(t)|;
  }

  lemma ParentIsSuffix(t: string, d: string, n: int, suffix: string) returns (i: int)
    requires 0 <= n <= |t| && d == t[n..] && '@' !in d && (n == 0 || t[n - 1] == '@')
    requires IsParent(d, suffix)
    ensures IsDomainSuffix(t, i) && suffix == t[i..]
  {
    var k :| 0 <= k < |d| && LabelAt(d, k) && suffix == d[k..];
    LabelInAddress(t, n, k);
    i := n + k;
  }

  lemma SuffixIsParent(t: string, d: string, n: int, i: int)
    requires 0 <= n <= |t| && d == t[n..] && '@' !in d && (n == 0 || t[n - 1] == '@')
    requires IsDomainSuffix(t, i)
    ensures IsParent(d, t[i..])
  {
    BehindAtSign(t, i, n);
    assert t[n..][i - n..] == t[i..];
    assert i > n ==> t[i - 1] == t[n..][i - n - 1];
    assert LabelAt(d, i - n);
  }

  /** The suffixes of the domain that are looked up, in terms of the whole address. */
  lemma ParentsListed(t: string, blacklist: set<string>, additional: seq<string>)
    ensures (exists suffix :: IsParent(DomainOf(t), suffix) && (suffix in blacklist || suffix in additional)) <==>
            (exists i :: IsDomainSuffix(t, i) && (t[i..] in blacklist || t[i..] in additional))
  {
    var n := DomainStart(t);
    if suffix :| IsParent(DomainOf(t), suffix) && (suffix in blacklist || suffix in additional) {
      var i := ParentIsSuffix(t, DomainOf(t), n, suffix);
    }
    if i :| IsDomainSuffix(t, i) && (t[i..] in blacklist || t[i..] in additional) {
      SuffixIsParent(t, DomainOf(t), n, i);
    }
  }
}
