/**
 * `es_correo_valido`: whether an address matches `^[\w\.-]+@[\w\.-]+\.\w+$`
 * with `re.match`. Word characters are taken in their ASCII sense.
 */
module Email {
  import opened Wrappers

  /** `\w`: an ASCII letter, a digit or the underscore. */
  predicate IsWordChar(c: char) {
    ('a' <= c <= 'z') || ('A' <= c <= 'Z') || ('0' <= c <= '9') || c == '_'
  }

  /** `[\w\.-]`. */
  predicate IsPartChar(c: char) {
    IsWordChar(c) || c == '.' || c == '-'
  }

  predicate AllWord(s: string) {
    forall k :: 0 <= k < |s| ==> IsWordChar(s[k])
  }

  predicate AllPart(s: string) {
    forall k :: 0 <= k < |s| ==> IsPartChar(s[k])
  }

  /**
   * The pattern read as a shape: `s[..at]` is a non-empty run of `[\w\.-]`,
   * `s[at]` is `@`, `s[at+1..dot]` a non-empty run of `[\w\.-]`, `s[dot]` a
   * `.` and `s[dot+1..]` a non-empty run of `\w` reaching the end.
   */
  ghost predicate MatchesAt(s: string, at: int, dot: int) {
    0 < at && at + 1 < dot && dot + 1 < |s|
    && s[at] == '@' && s[dot] == '.'
    && AllPart(s[..at]) && AllPart(s[at + 1..dot]) && AllWord(s[dot + 1..])
  }

  ghost predicate MatchesPattern(s: string) {
    exists at, dot :: MatchesAt(s, at, dot)
  }

  /** The position of the first `c` in `s`. */
  function FirstIndex(s: string, c: char): (r: Option<nat>)
    ensures r.None? <==> c !in s
    ensures r.Some? ==> r.value < |s| && s[r.value] == c && c !in s[..r.value]
  {
    if s == [] then None
    else if s[0] == c then Some(0)
    else match FirstIndex(s[1..], c)
      case None => None
      case Some(i) => assert s[1..][..i] == s[1..i + 1]; Some(i + 1)
  }

  /** The position of the last `c` in `s`. */
  function LastIndex(s: string, c: char): (r: Option<nat>)
    ensures r.None? <==> c !in s
    ensures r.Some? ==> r.value < |s| && s[r.value] == c && c !in s[r.value + 1..]
  {
    if s == [] then None
    else if s[|s| - 1] == c then Some(|s| - 1)
    else
      var init := s[..|s| - 1];
      assert s == init + [s[|s| - 1]];
      match LastIndex(init, c)
      case None => None
      case Some(i) => assert s[i + 1..] == init[i + 1..] + [s[|s| - 1]]; Some(i)
  }

  /**
   * The check itself. `[\w\.-]` cannot match `@`, so the first part ends at
   * the first `@`; `\w` cannot match `.`, so the final run starts after the
   * last `.`.
   */
  function IsValid(email: string): bool {
    match FirstIndex(email, '@')
    case None => false
    case Some(at) =>
      var rest := email[at + 1..];
      match LastIndex(rest, '.')
      case None => false
      case Some(d) =>
        0 < at && 0 < d && d + 1 < |rest|
        && AllPart(email[..at]) && AllPart(rest[..d]) && AllWord(rest[d + 1..])
  }

  lemma FirstIndexAt(s: string, c: char, i: int)
    requires 0 <= i < |s| && s[i] == c && c !in s[..i]
    ensures FirstIndex(s, c) == Some(i)
  {
  }

  lemma LastIndexAt(s: string, c: char, i: int)
    requires 0 <= i < |s| && s[i] == c && c !in s[i + 1..]
    ensures LastIndex(s, c) == Some(i)
  {
  }

  lemma PartHasNoAt(s: string)
    requires AllPart(s)
    ensures '@' !in s
  {
  }

  lemma WordHasNoPunctuation(s: string)
    requires AllWord(s)
    ensures '@' !in s && '.' !in s && '-' !in s
  {
  }

  lemma IsValidImpliesPattern(email: string)
    requires IsValid(email)
    ensures MatchesPattern(email)
  {
    var at := FirstIndex(email, '@').value;
    var rest := email[at + 1..];
    var d := LastIndex(rest, '.').value;
    var dot := at + 1 + d;
    assert rest[..d] == email[at + 1..dot];
    assert rest[d + 1..] == email[dot + 1..];
    assert MatchesAt(email, at, dot);
  }

  /** The check's verdict once the first `@` and the last `.` after it are known. */
  lemma VerdictAtIndices(email: string, at: nat, d: nat)
    requires FirstIndex(email, '@') == Some(at)
    requires LastIndex(email[at + 1..], '.') == Some(d)
    ensures IsValid(email) <==>
      0 < at && 0 < d && d + 1 < |email[at + 1..]|
      && AllPart(email[..at]) && AllPart(email[at + 1..][..d]) && AllWord(email[at + 1..][d + 1..])
  {
  }

  lemma PatternDeterminesCheck(email: string, at: int, dot: int)
    requires MatchesAt(email, at, dot)
    ensures FirstIndex(email, '@') == Some(at)
    ensures LastIndex(email[at + 1..], '.') == Some(dot - at - 1)
    ensures IsValid(email)
  {
    PartHasNoAt(email[..at]);
    FirstIndexAt(email, '@', at);
    var rest := email[at + 1..];
    var d := dot - at - 1;
    assert rest[d + 1..] == email[dot + 1..];
    WordHasNoPunctuation(email[dot + 1..]);
    LastIndexAt(rest, '.', d);
    assert rest[..d] == email[at + 1..dot];
    VerdictAtIndices(email, at, d);
  }

  /** The check accepts exactly the addresses of the pattern's shape. */
  lemma IsValidMatchesPattern(email: string)
    ensures IsValid(email) <==> MatchesPattern(email)
  {
    if IsValid(email) {
      IsValidImpliesPattern(email);
    }
    if MatchesPattern(email) {
      var at, dot :| MatchesAt(email, at, dot);
      PatternDeterminesCheck(email, at, dot);
    }
  }

  lemma OneAtBetween(head: string, tail: string)
    requires '@' !in head && '@' !in tail
    ensures multiset(head + ['@'] + tail)['@'] == 1
  {
    assert multiset(head + ['@'] + tail) == multiset(head) + multiset{'@'} + multiset(tail);
  }

  /** Outside its `@`, an address of the pattern's shape holds no `@`. */
  lemma PatternSplitsAtAt(email: string, at: int, dot: int)
    requires MatchesAt(email, at, dot)
    ensures email == email[..at] + ['@'] + email[at + 1..]
    ensures '@' !in email[..at] && '@' !in email[at + 1..]
  {
    PartHasNoAt(email[..at]);
    PartHasNoAt(email[at + 1..dot]);
    WordHasNoPunctuation(email[dot + 1..]);
    assert email[at + 1..] == email[at + 1..dot] + ['.'] + email[dot + 1..];
    assert email == email[..at] + ['@'] + email[at + 1..];
  }

  /** An accepted address holds exactly one `@`. */
  lemma ValidHasOneAt(email: string)
    requires IsValid(email)
    ensures multiset(email)['@'] == 1
  {
    IsValidImpliesPattern(email);
    var at, dot :| MatchesAt(email, at, dot);
    PatternSplitsAtAt(email, at, dot);
    OneAtBetween(email[..at], email[at + 1..]);
  }

  /**
   * An accepted address ends in a non-empty segment after its last `.`, and
   * that segment holds neither `.` nor `-`.
   */
  lemma ValidEndsInWordSegment(email: string) returns (dot: nat)
    requires IsValid(email)
    ensures dot + 1 < |email| && email[dot] == '.'
    ensures forall k :: dot < k < |email| ==> email[k] != '.' && email[k] != '-'
  {
    IsValidImpliesPattern(email);
    var at, d :| MatchesAt(email, at, d);
    dot := d;
    forall k | dot < k < |email| ensures email[k] != '.' && email[k] != '-' {
      assert email[k] == email[dot + 1..][k - dot - 1];
      assert IsWordChar(email[dot + 1..][k - dot - 1]);
    }
  }

  /** Putting the pattern's pieces together gives an accepted address. */
  lemma AcceptsParts(user: string, host: string, top: string)
    requires user != [] && host != [] && top != []
    requires AllPart(user) && AllPart(host) && AllWord(top)
    ensures IsValid(user + ['@'] + host + ['.'] + top)
  {
    var email := user + ['@'] + host + ['.'] + top;
    var at, dot := |user|, |user| + 1 + |host|;
    assert email[..at] == user;
    assert email[at + 1..dot] == host;
    assert email[dot + 1..] == top;
    assert MatchesAt(email, at, dot);
    PatternDeterminesCheck(email, at, dot);
  }

  lemma AcceptsExample()
    ensures IsValid("nombre@dominio.com")
  {
    assert AllPart("nombre") && AllPart("dominio") && AllWord("com");
    assert "nombre@dominio.com" == "nombre" + ['@'] + "dominio" + ['.'] + "com";
    AcceptsParts("nombre", "dominio", "com");
  }

  lemma RejectsSecondAt()
    ensures !IsValid("a@b@c.com")
  {
    var bad := "a@b@c.com";
    assert bad[..1] == "a";
    FirstIndexAt(bad, '@', 1);
    assert bad[2..] == "b@c.com";
    assert bad[2..][4..] == "com";
    LastIndexAt(bad[2..], '.', 3);
    VerdictAtIndices(bad, 1, 3);
    assert bad[2..][..3][1] == '@';
  }
}
