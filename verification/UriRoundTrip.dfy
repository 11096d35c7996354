/**
 Putting components together as section 5.3 of RFC 3986 does, and what kol::URI makes of the
 result: the same components back, exactly when the authority has no colon it could mistake.
 */
module UriRoundTrip {
  import opened Options
  import opened Uri

  function Text(o: Option<string>): string { if o.None? then "" else o.value }

  function Decimal(n: nat): (s: string)
    ensures s != "" && forall k :: 0 <= k < |s| ==> Digit(s[k])
  {
    var digit := ['0' + (n % 10) as char];
    if n < 10 then digit else Decimal(n / 10) + digit
  }

  predicate HasUser(a: Authority) { a.user.Some? || a.password.Some? }

  function UserName(a: Authority): string {
    Text(a.user) + if a.password.Some? then ":" + a.password.value else ""
  }

  function UserInfo(a: Authority): string {
    if HasUser(a) then UserName(a) + "@" else ""
  }

  function HostPort(a: Authority): string
  {
    Text(a.host) + if a.port < 0 then "" else ":" + Decimal(a.port)
  }

  predicate Present(a: Authority) { HasUser(a) || a.host.Some? || a.port >= 0 }

  function AuthorityText(a: Authority): string {
    if Present(a) then "//" + UserInfo(a) + HostPort(a) else ""
  }

  function SchemeText(scheme: Option<string>): string {
    if scheme.None? then "" else scheme.value + ":"
  }

  function After(mark: string, o: Option<string>): string {
    if o.None? then "" else mark + o.value
  }

  /** Section 5.3 of RFC 3986. */
  function Recompose(c: Parts): string {
    SchemeText(c.scheme) + AuthorityText(c.authority) + Text(c.path) + After("?", c.query) + After("#", c.fragment)
  }

  /** None of these characters, and no NUL. */
  predicate Avoids(s: string, marks: set<char>) {
    s == "" || (s[0] !in marks && s[0] != NUL && Avoids(s[1..], marks))
  }

  lemma {:induction false} AvoidsAt(s: string, marks: set<char>)
    requires Avoids(s, marks)
    ensures forall k :: 0 <= k < |s| ==> s[k] !in marks
  {
    if s != "" {
      AvoidsAt(s[1..], marks);
      assert forall k :: 0 < k < |s| ==> s[k] == s[1..][k - 1];
    }
  }

  /** An absent component, or one that is not empty and avoids these characters. */
  predicate Free(o: Option<string>, marks: set<char>) {
    o.Some? ==> o.value != "" && Avoids(o.value, marks)
  }

  predicate IsLetter(c: char) { 'a' <= c <= 'z' || 'A' <= c <= 'Z' }

  /** The characters of section 3.1 of RFC 3986. */
  predicate InScheme(c: char) {
    'a' <= c <= 'z' || 'A' <= c <= 'Z' || '0' <= c <= '9' || c in {'+', '-', '.'}
  }

  predicate IsScheme(o: Option<string>) {
    o.Some? ==> o.value != "" && IsLetter(o.value[0]) && forall k :: 0 <= k < |o.value| ==> InScheme(o.value[k])
  }

  /** The components of an authority as section 3.2 of RFC 3986 delimits them; the port fits an int. */
  predicate IsAuthority(a: Authority) {
    Free(a.user, {'/', '?', '#', '@'}) && Free(a.password, {'/', '?', '#', '@'}) && Free(a.host, {'/', '?', '#', '@'})
    && -1 <= a.port < 0x8000_0000
    && a.hostport == if HostPort(a) == "" then None else Some(HostPort(a))
  }

  /** Section 3.3 of RFC 3986: what a path may look like beside the other components. */
  predicate IsPath(path: string, scheme: bool, authority: bool) {
    (authority ==> path == "" || path[0] == '/')
    && (!authority ==> !HasAuthority(path, 0))
    && (!authority && !scheme ==> PlainSegment(path))
  }

  /** No colon before the first slash. */
  predicate PlainSegment(path: string) {
    forall k :: 0 <= k < Stop(path, {'/'}, 0) ==> path[k] != ':'
  }

  predicate WellFormed(c: Parts) {
    IsScheme(c.scheme) && IsAuthority(c.authority)
    && Free(c.path, {'?', '#'}) && IsPath(Text(c.path), c.scheme.Some?, Present(c.authority))
    && Free(c.query, {'#'}) && Free(c.fragment, {})
  }

  predicate PlainUser(a: Authority) {
    if a.password.Some? then ':' !in a.password.value else ':' !in Text(a.user)
  }

  predicate PlainHost(a: Authority) {
    a.port < 0 ==> ':' !in Text(a.host)
  }

  /** The first n characters of the part stand in the text at p. */
  predicate Same(text: string, p: nat, part: string, n: nat)
    requires n <= |part| && p + |part| <= |text|
  {
    n == 0 || (text[p + n - 1] == part[n - 1] && Same(text, p, part, n - 1))
  }

  /** A part stands in the text at p. */
  predicate Piece(text: string, p: nat, part: string) {
    p + |part| <= |text| && Same(text, p, part, |part|)
  }

  lemma {:induction false} SameIff(text: string, p: nat, part: string, n: nat)
    requires n <= |part| && p + |part| <= |text|
    ensures Same(text, p, part, n) <==> forall k :: p <= k < p + n ==> text[k] == part[k - p]
  {
    if n > 0 {
      SameIff(text, p, part, n - 1);
    }
  }

  lemma PieceAt(text: string, p: nat, part: string)
    requires Piece(text, p, part)
    ensures forall k :: p <= k < p + |part| ==> text[k] == part[k - p]
  {
    SameIff(text, p, part, |part|);
  }

  lemma PieceOf(text: string, p: nat, part: string)
    requires p + |part| <= |text| && forall k :: p <= k < p + |part| ==> text[k] == part[k - p]
    ensures Piece(text, p, part)
  {
    SameIff(text, p, part, |part|);
  }

  lemma PieceSplit(text: string, p: nat, a: string, b: string)
    requires Piece(text, p, a + b)
    ensures Piece(text, p, a) && Piece(text, p + |a|, b)
  {
    PieceAt(text, p, a + b);
    PieceOf(text, p, a);
    forall k | p + |a| <= k < p + |a| + |b| ensures text[k] == b[k - p - |a|] {
      assert (a + b)[k - p] == b[k - p - |a|];
    }
    PieceOf(text, p + |a|, b);
  }

  lemma SlicePiece(text: string, p: nat, part: string)
    requires Piece(text, p, part)
    ensures Slice(text, p, p + |part|) == if part == "" then None else Some(part)
  {
    PieceAt(text, p, part);
    assert text[p..p + |part|] == part;
  }

  lemma {:induction false} LastInIs(text: string, c: char, lo: nat, hi: nat, k: nat)
    requires 0 < lo <= k < hi <= |text| && text[k] == c
    requires forall j :: k < j < hi ==> text[j] != c
    ensures LastIn(text, c, lo, hi) == k
    decreases hi
  {
    if k < hi - 1 {
      LastInIs(text, c, lo, hi - 1, k);
    }
  }

  lemma {:induction false} LastInNone(text: string, c: char, lo: nat, hi: nat)
    requires 0 < lo && hi <= |text|
    ensures LastIn(text, c, lo, hi) == 0 <==> forall j :: lo <= j < hi ==> text[j] != c
    decreases hi
  {
    if lo < hi && text[hi - 1] != c {
      LastInNone(text, c, lo, hi - 1);
    }
  }

  /** With a single '@' the first and the last are the same. */
  lemma {:induction false} OneAt(text: string, lo: nat, hi: nat, k: nat)
    requires 0 < lo && hi <= |text|
    requires forall j :: lo <= j < hi ==> (text[j] == '@' <==> j == k)
    ensures FirstIn(text, '@', lo, hi) == LastIn(text, '@', lo, hi) == if lo <= k < hi then k else 0
    decreases hi
  {
    if lo < hi {
      OneAt(text, lo, hi - 1, k);
    }
  }

  lemma ValueOfDecimal(text: string, p: nat, n: nat)
    requires Piece(text, p, Decimal(n))
    ensures Value(text, p, p + |Decimal(n)|) == n
    decreases n
  {
    PieceAt(text, p, Decimal(n));
    if n >= 10 {
      PieceSplit(text, p, Decimal(n / 10), ['0' + (n % 10) as char]);
      ValueOfDecimal(text, p, n / 10);
    }
  }

  lemma PortReadsBack(text: string, p: nat, n: nat)
    requires Piece(text, p, Decimal(n))
    ensures PortIn(text, p, p + |Decimal(n)|) == n
  {
    PieceAt(text, p, Decimal(n));
    var hi := p + |Decimal(n)|;
    assert DigitRun(text, p, hi) == hi;
    ValueOfDecimal(text, p, n);
  }

  lemma {:induction false} LaterColon(text: string, lo: nat, hi: nat, k: nat)
    requires 0 < lo <= k < hi <= |text| && text[k] == ':'
    ensures LastIn(text, ':', lo, hi) >= k
    decreases hi
  {
    if k < hi - 1 {
      LaterColon(text, lo, hi - 1, k);
    }
  }

  /** A part whose only colons are its own: no colon found means it is all there. */
  lemma UncutPart(text: string, p: nat, part: string)
    requires 0 < p && Piece(text, p, part)
    ensures var n, colon := p + |part|, LastIn(text, ':', p, p + |part|);
            colon == 0 <==> ':' !in part
  {
    PieceAt(text, p, part);
    LastInNone(text, ':', p, p + |part|);
    if ':' in part {
      var j :| 0 <= j < |part| && part[j] == ':';
      assert text[p + j] == ':';
    }
  }

  /** In front + ":" + back, the last colon is the one between them unless back has one too. */
  lemma CutParts(text: string, p: nat, front: string, back: string)
    requires 0 < p && Piece(text, p, front + (":" + back))
    ensures var colon := LastIn(text, ':', p, p + |front| + 1 + |back|);
            colon >= p + |front| && (colon == p + |front| <==> ':' !in back)
    ensures Piece(text, p, front) && Piece(text, p + |front| + 1, back)
  {
    var q := p + |front| + 1;
    var n := q + |back|;
    PieceSplit(text, p, front, ":" + back);
    PieceSplit(text, p + |front|, ":", back);
    PieceAt(text, p + |front|, ":");
    PieceAt(text, q, back);
    if ':' in back {
      var j :| 0 <= j < |back| && back[j] == ':';
      assert text[q + j] == ':';
      LaterColon(text, p, n, q + j);
    } else {
      LastInIs(text, ':', p, n, p + |front|);
    }
  }

  /** The parser finds a's host and port in text[lo..n]. */
  ghost predicate HostParsed(text: string, lo: nat, n: nat, a: Authority)
    requires 0 < lo <= n <= |text|
  {
    var colon := LastIn(text, ':', lo, n);
    var end := if colon == 0 then n else colon;
    Slice(text, lo, end) == a.host && a.port == if end < n then PortIn(text, end + 1, n) else -1
  }

  /** The parser finds a's user name and password in text[lo..at]. */
  ghost predicate UserParsed(text: string, lo: nat, at: nat, a: Authority)
    requires 0 < lo <= at <= |text|
  {
    var split := LastIn(text, ':', lo, at);
    Slice(text, lo, if split == 0 then at else split) == a.user
    && a.password == if split == 0 then None else Slice(text, split + 1, at)
  }

  /** Host and port come back exactly when no colon of the host can pass for the port's. */
  lemma HostReadsBack(text: string, p: nat, n: nat, a: Authority)
    requires 0 < p && IsAuthority(a) && Piece(text, p, HostPort(a)) && n == p + |HostPort(a)|
    ensures HostParsed(text, p, n, a) <==> PlainHost(a)
  {
    var host := Text(a.host);
    if a.port < 0 {
      assert HostPort(a) == host;
      UncutPart(text, p, host);
      SlicePiece(text, p, host);
    } else {
      CutParts(text, p, host, Decimal(a.port));
      assert ':' !in Decimal(a.port);
      SlicePiece(text, p, host);
      PortReadsBack(text, p + |host| + 1, a.port);
    }
  }

  lemma UserAlone(text: string, p: nat, at: nat, a: Authority)
    requires 0 < p && IsAuthority(a) && a.password == None && Piece(text, p, Text(a.user)) && at == p + |Text(a.user)|
    ensures UserParsed(text, p, at, a) <==> ':' !in Text(a.user)
  {
    UncutPart(text, p, Text(a.user));
    SlicePiece(text, p, Text(a.user));
  }

  lemma UserWithPassword(text: string, p: nat, at: nat, a: Authority)
    requires 0 < p && IsAuthority(a) && a.password.Some? && Piece(text, p, Text(a.user) + (":" + a.password.value))
    requires at == p + |Text(a.user)| + 1 + |a.password.value|
    ensures UserParsed(text, p, at, a) <==> ':' !in a.password.value
  {
    CutParts(text, p, Text(a.user), a.password.value);
    SlicePiece(text, p, Text(a.user));
    SlicePiece(text, p + |Text(a.user)| + 1, a.password.value);
  }

  /** User name and password come back exactly when the colon between them is the last one. */
  lemma UserReadsBack(text: string, p: nat, at: nat, a: Authority)
    requires 0 < p && IsAuthority(a) && HasUser(a) && Piece(text, p, UserName(a)) && at == p + |UserName(a)|
    ensures UserParsed(text, p, at, a) <==> PlainUser(a)
  {
    if a.password.None? {
      assert UserName(a) == Text(a.user);
      UserAlone(text, p, at, a);
    } else {
      assert UserName(a) == Text(a.user) + (":" + a.password.value);
      UserWithPassword(text, p, at, a);
    }
  }

  /** What delimits an authority occurs in none of its parts, and '@' only behind the user. */
  ghost predicate EndsInAt(info: string) {
    forall k :: 0 <= k < |info| ==> info[k] !in {'/', '?', '#'} && (info[k] == '@' <==> k == |info| - 1)
  }

  ghost predicate WithoutMarks(host: string) {
    forall k :: 0 <= k < |host| ==> host[k] !in {'/', '?', '#', '@'}
  }

  lemma UserCharacters(a: Authority)
    requires IsAuthority(a)
    ensures EndsInAt(UserInfo(a))
  {
    if HasUser(a) {
      var name, user := UserName(a), Text(a.user);
      AvoidsAt(user, {'/', '?', '#', '@'});
      AvoidsAt(Text(a.password), {'/', '?', '#', '@'});
      forall k | 0 <= k < |name| ensures name[k] !in {'/', '?', '#', '@'} {
        if k < |user| {
          assert name[k] == user[k];
        } else if k > |user| {
          assert name[k] == a.password.value[k - |user| - 1];
        }
      }
      assert forall k :: 0 <= k < |name| ==> UserInfo(a)[k] == name[k];
    }
  }

  lemma HostCharacters(a: Authority)
    requires IsAuthority(a)
    ensures WithoutMarks(HostPort(a))
  {
    var host := Text(a.host);
    AvoidsAt(host, {'/', '?', '#', '@'});
    forall k | 0 <= k < |HostPort(a)| ensures HostPort(a)[k] !in {'/', '?', '#', '@'} {
      if k < |host| {
        assert HostPort(a)[k] == host[k];
      } else if k > |host| {
        assert HostPort(a)[k] == Decimal(a.port)[k - |host| - 1];
        assert Digit(HostPort(a)[k]);
      }
    }
  }

  /** The authority's marks in the text. */
  lemma AuthorityMarks(text: string, p: nat, info: string, host: string, n: nat)
    requires Piece(text, p, "//" + (info + host)) && n == p + 2 + |info| + |host|
    requires n == |text| || text[n] in {'/', '?', '#'}
    requires EndsInAt(info) && WithoutMarks(host)
    ensures HasAuthority(text, p) && AuthorityEnd(text, p) == n
    ensures FirstIn(text, '@', p + 2, n) == LastIn(text, '@', p + 2, n) == if info != "" then p + 1 + |info| else 0
    ensures Piece(text, p + 2, info) && Piece(text, p + 2 + |info|, host)
  {
    var q := p + 2 + |info|;
    PieceSplit(text, p, "//", info + host);
    PieceAt(text, p, "//");
    PieceSplit(text, p + 2, info, host);
    PieceAt(text, p + 2, info);
    PieceAt(text, q, host);
    forall k | p + 2 <= k < n
      ensures text[k] !in {'/', '?', '#'} && (text[k] == '@' <==> info != "" && k == q - 1)
    {
      if k < q {
        assert text[k] == info[k - p - 2];
      } else {
        assert text[k] == host[k - q];
      }
    }
    OneAt(text, p + 2, n, if info != "" then q - 1 else 0);
  }

  /** With the marks known, the authority is right if its two halves are. */
  lemma BoundsWithoutUser(text: string, p: nat, a: Authority, n: nat)
    requires HasAuthority(text, p) && AuthorityEnd(text, p) == n && a.user == None && a.password == None
    requires FirstIn(text, '@', p + 2, n) == LastIn(text, '@', p + 2, n) == 0
    requires Slice(text, p + 2, n) == a.hostport
    ensures AuthorityAt(text, p) == a <==> HostParsed(text, p + 2, n, a)
  {
    assert BoundsAt(text, p).user == p && BoundsAt(text, p).at == p + 1;
  }

  lemma BoundsWithUser(text: string, p: nat, a: Authority, at: nat, n: nat)
    requires HasAuthority(text, p) && AuthorityEnd(text, p) == n && p + 2 <= at < n
    requires FirstIn(text, '@', p + 2, n) == LastIn(text, '@', p + 2, n) == at
    requires Slice(text, at + 1, n) == a.hostport
    ensures AuthorityAt(text, p) == a <==> UserParsed(text, p + 2, at, a) && HostParsed(text, at + 1, n, a)
  {
    var b, split := BoundsAt(text, p), LastIn(text, ':', p + 2, at);
    assert b.at == at && b.user == if split == 0 then at else split;
  }

  lemma MarksWithoutUser(text: string, p: nat, a: Authority, host: string, n: nat)
    requires a.user == None && a.password == None && a.hostport == if host == "" then None else Some(host)
    requires Piece(text, p, "//" + host) && n == p + 2 + |host| && (n == |text| || text[n] in {'/', '?', '#'})
    requires WithoutMarks(host)
    ensures AuthorityEnd(text, p) == n && Piece(text, p + 2, host)
    ensures AuthorityAt(text, p) == a <==> HostParsed(text, p + 2, n, a)
  {
    assert "//" + host == "//" + ("" + host);
    AuthorityMarks(text, p, "", host, n);
    SlicePiece(text, p + 2, host);
    BoundsWithoutUser(text, p, a, n);
  }

  lemma MarksWithUser(text: string, p: nat, a: Authority, name: string, host: string, at: nat, n: nat)
    requires a.hostport == if host == "" then None else Some(host)
    requires Piece(text, p, "//" + (name + "@" + host)) && at == p + 2 + |name| && n == at + 1 + |host|
    requires n == |text| || text[n] in {'/', '?', '#'}
    requires EndsInAt(name + "@") && WithoutMarks(host)
    ensures AuthorityEnd(text, p) == n && Piece(text, p + 2, name) && Piece(text, at + 1, host)
    ensures AuthorityAt(text, p) == a <==> UserParsed(text, p + 2, at, a) && HostParsed(text, at + 1, n, a)
  {
    AuthorityMarks(text, p, name + "@", host, n);
    SlicePiece(text, at + 1, host);
    PieceSplit(text, p + 2, name, "@");
    BoundsWithUser(text, p, a, at, n);
  }

  lemma WithoutUser(text: string, p: nat, a: Authority, n: nat)
    requires Present(a) && !HasUser(a) && IsAuthority(a) && Piece(text, p, AuthorityText(a))
    requires n == p + |AuthorityText(a)| && (n == |text| || text[n] in {'/', '?', '#'})
    ensures AuthorityEnd(text, p) == n && (AuthorityAt(text, p) == a <==> PlainHost(a))
  {
    HostCharacters(a);
    assert AuthorityText(a) == "//" + HostPort(a);
    MarksWithoutUser(text, p, a, HostPort(a), n);
    HostReadsBack(text, p + 2, n, a);
  }

  /** The authority of a, user and all, stands at p and ends at n. */
  ghost predicate UserAuthorityAt(text: string, p: nat, a: Authority, at: nat, n: nat) {
    HasUser(a) && IsAuthority(a) && Piece(text, p, AuthorityText(a)) && at == p + 2 + |UserName(a)|
    && n == p + |AuthorityText(a)| && (n == |text| || text[n] in {'/', '?', '#'})
  }

  lemma UserFirst(a: Authority, name: string, host: string)
    requires HasUser(a) && name == UserName(a) && host == HostPort(a)
    ensures AuthorityText(a) == "//" + (name + "@" + host) == ("//" + name + "@") + host
  {
    assert UserInfo(a) == name + "@";
    assert "//" + (name + "@") + host == "//" + (name + "@" + host);
    assert "//" + (name + "@") + host == ("//" + name + "@") + host;
  }

  lemma UserMarks(text: string, p: nat, a: Authority, at: nat, n: nat)
    requires UserAuthorityAt(text, p, a, at, n)
    ensures AuthorityEnd(text, p) == n && p + 2 <= at < n <= |text|
    ensures Piece(text, p + 2, UserName(a)) && Piece(text, at + 1, HostPort(a))
    ensures AuthorityAt(text, p) == a <==> UserParsed(text, p + 2, at, a) && HostParsed(text, at + 1, n, a)
  {
    UserCharacters(a);
    HostCharacters(a);
    UserFirst(a, UserName(a), HostPort(a));
    MarksWithUser(text, p, a, UserName(a), HostPort(a), at, n);
  }

  lemma NameAndHost(text: string, p: nat, name: string, host: string)
    requires Piece(text, p, ("//" + name + "@") + host)
    ensures Piece(text, p + 2, name) && Piece(text, p + 3 + |name|, host)
  {
    var front := "//" + name + "@";
    PieceSplit(text, p, front, host);
    assert front == "//" + (name + "@");
    PieceSplit(text, p, "//", name + "@");
    PieceSplit(text, p + 2, name, "@");
  }

  lemma UserPieces(text: string, p: nat, a: Authority, at: nat, n: nat, name: string, host: string)
    requires UserAuthorityAt(text, p, a, at, n) && name == UserName(a) && host == HostPort(a)
    ensures at == p + 2 + |name| && n == at + 1 + |host| && n <= |text|
    ensures Piece(text, p + 2, name) && Piece(text, at + 1, host)
  {
    UserFirst(a, name, host);
    NameAndHost(text, p, name, host);
  }

  lemma UserPlain(text: string, p: nat, a: Authority, at: nat, n: nat)
    requires UserAuthorityAt(text, p, a, at, n)
    ensures p + 2 <= at < n <= |text| && (UserParsed(text, p + 2, at, a) <==> PlainUser(a))
  {
    UserPieces(text, p, a, at, n, UserName(a), HostPort(a));
    UserReadsBack(text, p + 2, at, a);
  }

  lemma HostPlain(text: string, p: nat, a: Authority, at: nat, n: nat)
    requires UserAuthorityAt(text, p, a, at, n)
    ensures p + 2 <= at < n <= |text| && (HostParsed(text, at + 1, n, a) <==> PlainHost(a))
  {
    UserPieces(text, p, a, at, n, UserName(a), HostPort(a));
    HostReadsBack(text, at + 1, n, a);
  }

  lemma WithUser(text: string, p: nat, a: Authority, at: nat, n: nat)
    requires UserAuthorityAt(text, p, a, at, n)
    ensures AuthorityEnd(text, p) == n && (AuthorityAt(text, p) == a <==> PlainUser(a) && PlainHost(a))
  {
    UserMarks(text, p, a, at, n);
    UserPlain(text, p, a, at, n);
    HostPlain(text, p, a, at, n);
  }

  lemma SchemeReadsBack(text: string, scheme: string)
    requires IsScheme(Some(scheme)) && Piece(text, 0, scheme + ":")
    ensures SchemeEnd(text, 0) == |scheme| + 1 && Slice(text, 0, |scheme|) == Some(scheme)
  {
    PieceSplit(text, 0, scheme, ":");
    PieceAt(text, 0, scheme);
    PieceAt(text, |scheme|, ":");
    assert forall k :: 0 <= k < |scheme| ==> SchemeChar(text[k]);
    assert text[|scheme|] == ':' && !SchemeChar(text[|scheme|]);
    assert SchemeRun(text, 1) == |scheme|;
    SlicePiece(text, 0, scheme);
  }

  /** A path without a colon in its first segment is not taken for a scheme. */
  lemma NoScheme(text: string, path: string)
    requires Piece(text, 0, path) && PlainSegment(path)
    requires |path| == |text| || text[|path|] in {'?', '#'}
    ensures SchemeEnd(text, 0) == 0
  {
    PieceAt(text, 0, path);
    if text != "" && Alpha(text[0]) {
      var r, k := SchemeRun(text, 1), Stop(path, {'/'}, 0);
      assert path != "" && text[0] == path[0];
      assert r <= k by {
        if k < |path| {
          assert text[k] == '/';
        }
      }
      if r < k {
        assert path[r] == text[r];
      }
    }
  }

  /** Nor is an authority. */
  lemma NoSchemeBefore(text: string, a: Authority)
    requires Present(a) && Piece(text, 0, AuthorityText(a))
    ensures SchemeEnd(text, 0) == 0
  {
    assert AuthorityText(a) == "//" + (UserInfo(a) + HostPort(a));
    PieceSplit(text, 0, "//", UserInfo(a) + HostPort(a));
    PieceAt(text, 0, "//");
    assert text[0] == '/';
  }

  lemma PathReadsBack(text: string, p: nat, n: nat, path: Option<string>)
    requires Free(path, {'?', '#'}) && Piece(text, p, Text(path)) && n == p + |Text(path)|
    requires n == |text| || text[n] in {'?', '#'}
    ensures PathEnd(text, p) == n && Slice(text, p, n) == path
  {
    PieceAt(text, p, Text(path));
    AvoidsAt(Text(path), {'?', '#'});
    SlicePiece(text, p, Text(path));
  }

  lemma QueryReadsBack(text: string, p: nat, n: nat, query: Option<string>)
    requires Free(query, {'#'}) && Piece(text, p, After("?", query)) && n == p + |After("?", query)|
    requires n == |text| || text[n] == '#'
    ensures QueryEnd(text, p) == n && Slice(text, p + 1, n) == query
    ensures p == |text| || text[p] in {'?', '#'}
  {
    if query.Some? {
      AvoidsAt(query.value, {'#'});
      PieceSplit(text, p, "?", query.value);
      PieceAt(text, p, "?");
      PieceAt(text, p + 1, query.value);
      SlicePiece(text, p + 1, query.value);
    }
  }

  lemma FragmentReadsBack(text: string, p: nat, fragment: Option<string>)
    requires Free(fragment, {}) && Piece(text, p, After("#", fragment)) && |text| == p + |After("#", fragment)|
    ensures Slice(text, p + 1, FragmentEnd(text, p)) == fragment
    ensures p == |text| || text[p] == '#'
  {
    if fragment.Some? {
      PieceSplit(text, p, "#", fragment.value);
      PieceAt(text, p, "#");
      SlicePiece(text, p + 1, fragment.value);
    }
  }

  /** Where the parts of a recomposed reference stand. */
  ghost predicate LaidOut(text: string, c: Parts, p1: nat, p2: nat, p3: nat, p4: nat) {
    InTurn(text, SchemeText(c.scheme), AuthorityText(c.authority), Text(c.path), After("?", c.query),
           After("#", c.fragment), p1, p2, p3, p4)
  }

  /** Five pieces one after the other, and nothing else. */
  ghost predicate InTurn(text: string, a: string, b: string, c: string, d: string, e: string,
                         p1: nat, p2: nat, p3: nat, p4: nat) {
    Piece(text, 0, a) && p1 == |a| && Piece(text, p1, b) && p2 == p1 + |b|
    && Piece(text, p2, c) && p3 == p2 + |c| && Piece(text, p3, d) && p4 == p3 + |d|
    && Piece(text, p4, e) && |text| == p4 + |e|
  }

  lemma FivePieces(text: string, a: string, b: string, c: string, d: string, e: string,
                   p1: nat, p2: nat, p3: nat, p4: nat)
    requires text == a + b + c + d + e
    requires p1 == |a| && p2 == p1 + |b| && p3 == p2 + |c| && p4 == p3 + |d|
    ensures InTurn(text, a, b, c, d, e, p1, p2, p3, p4)
  {
    PieceOf(text, 0, a);
    PieceOf(text, p1, b);
    PieceOf(text, p2, c);
    PieceOf(text, p3, d);
    PieceOf(text, p4, e);
  }

  lemma Layout(text: string, c: Parts, p1: nat, p2: nat, p3: nat, p4: nat)
    requires text == Recompose(c) && p1 == |SchemeText(c.scheme)| && p2 == p1 + |AuthorityText(c.authority)|
    requires p3 == p2 + |Text(c.path)| && p4 == p3 + |After("?", c.query)|
    ensures LaidOut(text, c, p1, p2, p3, p4)
  {
    FivePieces(text, SchemeText(c.scheme), AuthorityText(c.authority), Text(c.path), After("?", c.query),
               After("#", c.fragment), p1, p2, p3, p4);
  }

  /** What follows the authority: nothing, or one of the characters that may end it. */
  lemma RestReadsBack(text: string, c: Parts, p1: nat, p2: nat, p3: nat, p4: nat)
    requires WellFormed(c) && LaidOut(text, c, p1, p2, p3, p4)
    ensures PathEnd(text, p2) == p3 && Slice(text, p2, p3) == c.path
    ensures QueryEnd(text, p3) == p4 && Slice(text, p3 + 1, p4) == c.query
    ensures Slice(text, p4 + 1, FragmentEnd(text, p4)) == c.fragment
    ensures p3 == |text| || text[p3] in {'?', '#'}
  {
    FragmentReadsBack(text, p4, c.fragment);
    QueryReadsBack(text, p3, p4, c.query);
    PathReadsBack(text, p2, p3, c.path);
  }

  /** A path that does not start with "//" is not taken for an authority. */
  lemma NoAuthority(text: string, p: nat, path: string)
    requires Piece(text, p, path) && !HasAuthority(path, 0)
    requires p + |path| == |text| || text[p + |path|] in {'?', '#'}
    ensures !HasAuthority(text, p)
  {
    PieceAt(text, p, path);
    if |path| >= 2 {
      assert text[p] == path[0] && text[p + 1] == path[1];
    }
  }

  lemma AuthorityReadsBack(text: string, c: Parts, p1: nat, p2: nat, p3: nat, p4: nat)
    requires WellFormed(c) && LaidOut(text, c, p1, p2, p3, p4)
    requires p3 == |text| || text[p3] in {'?', '#'}
    ensures AuthorityEnd(text, p1) == p2
    ensures AuthorityAt(text, p1) == c.authority <==> PlainUser(c.authority) && PlainHost(c.authority)
  {
    var a := c.authority;
    PieceAt(text, p2, Text(c.path));
    if !Present(a) {
      assert a == NO_AUTHORITY;
      NoAuthority(text, p1, Text(c.path));
    } else if HasUser(a) {
      WithUser(text, p1, a, p1 + 2 + |UserName(a)|, p2);
    } else {
      WithoutUser(text, p1, a, p2);
    }
  }

  lemma SchemePartReadsBack(text: string, c: Parts, p1: nat, p2: nat, p3: nat, p4: nat)
    requires WellFormed(c) && LaidOut(text, c, p1, p2, p3, p4)
    requires p3 == |text| || text[p3] in {'?', '#'}
    ensures SchemeEnd(text, 0) == p1 && c.scheme == if p1 == 0 then None else Slice(text, 0, p1 - 1)
  {
    if c.scheme.Some? {
      SchemeReadsBack(text, c.scheme.value);
    } else if Present(c.authority) {
      NoSchemeBefore(text, c.authority);
    } else {
      NoScheme(text, Text(c.path));
    }
  }

  /** With the ends of the parts known, only the authority is left to compare. */
  lemma ParsedAs(text: string, c: Parts, p1: nat, p2: nat, p3: nat, p4: nat)
    requires SchemeEnd(text, 0) == p1 && c.scheme == if p1 == 0 then None else Slice(text, 0, p1 - 1)
    requires AuthorityEnd(text, p1) == p2 && PathEnd(text, p2) == p3 && QueryEnd(text, p3) == p4
    requires Slice(text, p2, p3) == c.path && Slice(text, p3 + 1, p4) == c.query
    requires Slice(text, p4 + 1, FragmentEnd(text, p4)) == c.fragment
    ensures Parse(text) == c <==> AuthorityAt(text, p1) == c.authority
  {
  }

  lemma PartsReadBack(text: string, c: Parts, p1: nat, p2: nat, p3: nat, p4: nat)
    requires WellFormed(c) && LaidOut(text, c, p1, p2, p3, p4)
    ensures SchemeEnd(text, 0) == p1 && (Parse(text) == c <==> AuthorityAt(text, p1) == c.authority)
    ensures p3 == |text| || text[p3] in {'?', '#'}
  {
    RestReadsBack(text, c, p1, p2, p3, p4);
    AuthorityReadsBack(text, c, p1, p2, p3, p4);
    SchemePartReadsBack(text, c, p1, p2, p3, p4);
    ParsedAs(text, c, p1, p2, p3, p4);
  }

  /** Only the colons of the authority decide whether parsing undoes recomposition. */
  lemma RoundTrip(c: Parts)
    requires WellFormed(c)
    ensures Parse(Recompose(c)) == c <==> PlainUser(c.authority) && PlainHost(c.authority)
  {
    var p1 := |SchemeText(c.scheme)|;
    var p2 := p1 + |AuthorityText(c.authority)|;
    var p3 := p2 + |Text(c.path)|;
    var p4 := p3 + |After("?", c.query)|;
    Layout(Recompose(c), c, p1, p2, p3, p4);
    PartsReadBack(Recompose(c), c, p1, p2, p3, p4);
    AuthorityReadsBack(Recompose(c), c, p1, p2, p3, p4);
  }
}
