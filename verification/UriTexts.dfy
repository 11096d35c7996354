/**
 What kol::URI makes of any text, well formed or not: every component is told by the characters
 that delimit it.
 */
module UriTexts {
  import opened Options
  import opened Uri
  import opened UriRoundTrip

  /** A letter first, then only characters of a scheme up to the colon at k. */
  ghost predicate SchemeEndsAt(text: string, k: nat) {
    0 < k < |text| && text[k] == ':' && IsLetter(text[0]) && forall j :: 0 <= j < k ==> InScheme(text[j])
  }

  /** A text has a scheme exactly when it starts like one. */
  lemma SchemeOfAnyText(text: string, k: nat)
    ensures SchemeEndsAt(text, k) <==> SchemeEnd(text, 0) == k + 1
    ensures SchemeEnd(text, 0) == 0 <==> forall j: nat :: !SchemeEndsAt(text, j)
  {
    if text != "" && IsLetter(text[0]) {
      var n := SchemeRun(text, 1);
      assert forall j :: 0 <= j < n ==> InScheme(text[j]);
      if n < |text| && text[n] == ':' {
        assert SchemeEndsAt(text, n);
      }
      forall j: nat | SchemeEndsAt(text, j) ensures j == n {
        assert !SchemeChar(text[j]);
      }
    }
  }

  /** A first character that is no letter, or a character before the first colon that no scheme has. */
  lemma NotAScheme(text: string, k: nat)
    requires k < |text| && text[k] != ':' && forall j :: 0 <= j < k ==> text[j] != ':'
    requires !InScheme(text[k]) || !IsLetter(text[0])
    ensures SchemeEnd(text, 0) == 0 && Parse(text).scheme == None
  {
    SchemeOfAnyText(text, k);
    assert forall j: nat :: !SchemeEndsAt(text, j);
  }

  /** The ends of scheme, authority, path and query, by the characters around them. */
  ghost predicate SplitsAt(text: string, p1: nat, p2: nat, p3: nat, p4: nat) {
    p1 <= p2 <= p3 <= p4 <= |text|
    && SchemeSpans(text, p1) && AuthoritySpans(text, p1, p2) && PathSpans(text, p2, p3) && QuerySpans(text, p3, p4)
  }

  ghost predicate SchemeSpans(text: string, n: nat) {
    if n == 0 then forall k: nat :: !SchemeEndsAt(text, k) else SchemeEndsAt(text, n - 1)
  }

  /** "//" and what follows up to the next '/', '?' or '#', or nothing. */
  ghost predicate AuthoritySpans(text: string, p: nat, n: nat) {
    p <= n <= |text|
    && if p + 2 <= |text| && text[p] == '/' && text[p + 1] == '/' then
         p + 2 <= n && (forall k :: p + 2 <= k < n ==> text[k] != '/' && text[k] != '?' && text[k] != '#')
         && (n == |text| || text[n] == '/' || text[n] == '?' || text[n] == '#')
       else n == p
  }

  ghost predicate PathSpans(text: string, p: nat, n: nat) {
    p <= n <= |text| && (forall k :: p <= k < n ==> text[k] != '?' && text[k] != '#')
    && (n == |text| || text[n] == '?' || text[n] == '#')
  }

  ghost predicate QuerySpans(text: string, p: nat, n: nat) {
    p <= n <= |text|
    && if p < |text| && text[p] == '?' then
         p < n && (forall k :: p < k < n ==> text[k] != '#') && (n == |text| || text[n] == '#')
       else n == p
  }

  lemma SchemeSpan(text: string, n: nat)
    ensures SchemeSpans(text, n) <==> SchemeEnd(text, 0) == n
  {
    SchemeOfAnyText(text, if n == 0 then 0 else n - 1);
  }

  lemma AuthoritySpan(text: string, p: nat, n: nat)
    requires p <= |text|
    ensures AuthoritySpans(text, p, n) <==> AuthorityEnd(text, p) == n
  {
  }

  lemma PathSpan(text: string, p: nat, n: nat)
    requires p <= |text|
    ensures PathSpans(text, p, n) <==> PathEnd(text, p) == n
  {
  }

  lemma QuerySpan(text: string, p: nat, n: nat)
    requires p <= |text|
    ensures QuerySpans(text, p, n) <==> QueryEnd(text, p) == n
  {
  }

  /** Every text splits in one way, and the components lie between the ends. */
  lemma ParseOfAnyText(text: string, p1: nat, p2: nat, p3: nat, p4: nat)
    requires SplitsAt(text, p1, p2, p3, p4)
    ensures var c := Parse(text);
            c.scheme == (if p1 == 0 then None else Some(text[..p1 - 1]))
            && c.authority == AuthorityAt(text, p1)
            && c.path == (if p2 == p3 then None else Some(text[p2..p3]))
            && c.query == (if p4 <= p3 + 1 then None else Some(text[p3 + 1..p4]))
            && c.fragment == (if |text| <= p4 + 1 then None else Some(text[p4 + 1..]))
  {
    SchemeSpan(text, p1);
    AuthoritySpan(text, p1, p2);
    PathSpan(text, p2, p3);
    QuerySpan(text, p3, p4);
    FragmentSpan(text, p3, p4);
    PartsBetween(text, p1, p2, p3, p4);
  }

  lemma PartsBetween(text: string, p1: nat, p2: nat, p3: nat, p4: nat)
    requires SchemeEnd(text, 0) == p1 && AuthorityEnd(text, p1) == p2 && PathEnd(text, p2) == p3 && QueryEnd(text, p3) == p4
    ensures Parse(text) == Parts(if p1 == 0 then None else Slice(text, 0, p1 - 1), AuthorityAt(text, p1), Slice(text, p2, p3),
                                 Slice(text, p3 + 1, p4), Slice(text, p4 + 1, FragmentEnd(text, p4)))
  {
  }

  lemma FragmentSpan(text: string, p3: nat, p4: nat)
    requires p3 <= |text| && (p3 == |text| || text[p3] == '?' || text[p3] == '#') && QuerySpans(text, p3, p4)
    ensures Slice(text, p4 + 1, FragmentEnd(text, p4)) == if |text| <= p4 + 1 then None else Some(text[p4 + 1..])
  {
    if p4 + 1 < |text| {
      assert text[p4] == '#' && text[p4 + 1..|text|] == text[p4 + 1..];
    }
  }

  lemma SplitOfAnyText(text: string) returns (p1: nat, p2: nat, p3: nat, p4: nat)
    ensures SplitsAt(text, p1, p2, p3, p4)
  {
    p1 := SchemeEnd(text, 0);
    p2 := AuthorityEnd(text, p1);
    p3 := PathEnd(text, p2);
    p4 := QueryEnd(text, p3);
    SchemeSpan(text, p1);
    AuthoritySpan(text, p1, p2);
    PathSpan(text, p2, p3);
    QuerySpan(text, p3, p4);
  }

  /** The only c of text[lo..hi] with none before, or with none behind it. */
  ghost predicate NoneOf(text: string, c: char, lo: nat, hi: nat) {
    hi <= |text| && forall k :: lo <= k < hi ==> text[k] != c
  }

  ghost predicate FirstOf(text: string, c: char, lo: nat, hi: nat, k: nat) {
    lo <= k < hi <= |text| && text[k] == c && NoneOf(text, c, lo, k)
  }

  ghost predicate LastOf(text: string, c: char, lo: nat, hi: nat, k: nat) {
    lo <= k < hi <= |text| && text[k] == c && NoneOf(text, c, k + 1, hi)
  }

  lemma {:induction false} FirstInIs(text: string, c: char, lo: nat, hi: nat, k: nat)
    requires 0 < lo && FirstOf(text, c, lo, hi, k)
    ensures FirstIn(text, c, lo, hi) == k
    decreases hi
  {
    if k < hi - 1 {
      FirstInIs(text, c, lo, hi - 1, k);
    } else {
      FirstInNone(text, c, lo, k);
    }
  }

  lemma {:induction false} FirstInNone(text: string, c: char, lo: nat, hi: nat)
    requires 0 < lo && NoneOf(text, c, lo, hi)
    ensures FirstIn(text, c, lo, hi) == 0
    decreases hi
  {
    if lo < hi {
      FirstInNone(text, c, lo, hi - 1);
    }
  }

  /** An authority without '@': the last colon, if any, ends the host. */
  lemma AuthorityWithoutUser(text: string, p: nat, n: nat, k: nat)
    requires p + 2 <= n && AuthoritySpans(text, p, n) && NoneOf(text, '@', p + 2, n)
    ensures var a := AuthorityAt(text, p);
            a.user == None && a.password == None && a.hostport == (if n == p + 2 then None else Some(text[p + 2..n]))
            && (NoneOf(text, ':', p + 2, n) ==> a.host == a.hostport && a.port == -1)
            && (LastOf(text, ':', p + 2, n, k) ==>
                  a.host == (if k == p + 2 then None else Some(text[p + 2..k])) && a.port == PortIn(text, k + 1, n))
  {
    AuthoritySpan(text, p, n);
    FirstInNone(text, '@', p + 2, n);
    LastInNone(text, '@', p + 2, n);
    LastInNone(text, ':', p + 2, n);
    if LastOf(text, ':', p + 2, n, k) {
      LastInIs(text, ':', p + 2, n, k);
    }
  }

  lemma ColonOfAnyText(text: string, lo: nat, hi: nat, k: nat)
    requires 0 < lo <= hi
    ensures NoneOf(text, ':', lo, hi) ==> LastIn(text, ':', lo, hi) == 0
    ensures LastOf(text, ':', lo, hi, k) ==> LastIn(text, ':', lo, hi) == k
  {
    if LastOf(text, ':', lo, hi, k) {
      LastInIs(text, ':', lo, hi, k);
    } else if hi <= |text| {
      LastInNone(text, ':', lo, hi);
    }
  }

  /** The parts that the '@' and the colons of an authority with '@' give. */
  lemma PartsOfAnyText(text: string, p: nat, n: nat, first: nat, last: nat)
    requires p + 2 <= n && AuthoritySpans(text, p, n)
    requires FirstOf(text, '@', p + 2, n, first) && LastOf(text, '@', p + 2, n, last)
    ensures UserAt(text, p, AuthorityAt(text, p), last, LastIn(text, ':', p + 2, first))
    ensures HostAt(text, AuthorityAt(text, p), last, n, LastIn(text, ':', first + 1, n))
  {
    AuthoritySpan(text, p, n);
    FirstInIs(text, '@', p + 2, n, first);
    LastInIs(text, '@', p + 2, n, last);
    assert BoundsAt(text, p).at == last;
  }

  ghost predicate UserAt(text: string, p: nat, a: Authority, last: nat, colon: nat) {
    last <= |text| && colon <= |text|
    && a.user == Slice(text, p + 2, if colon == 0 then last else colon)
    && a.password == Slice(text, if colon == 0 then last + 1 else colon + 1, last)
  }

  ghost predicate HostAt(text: string, a: Authority, last: nat, n: nat, colon: nat) {
    colon <= n <= |text| && a.hostport == Slice(text, last + 1, n)
    && a.host == Slice(text, last + 1, if colon == 0 then n else colon)
    && a.port == if colon == 0 || colon == n then -1 else PortIn(text, colon + 1, n)
  }

  /**
   User name and password of an authority with '@': the last '@' ends them, and the last colon
   before the first '@' lies between them.
   */
  lemma UserOfAnyText(text: string, p: nat, n: nat, first: nat, last: nat, u: nat)
    requires p + 2 <= n && AuthoritySpans(text, p, n)
    requires FirstOf(text, '@', p + 2, n, first) && LastOf(text, '@', p + 2, n, last)
    ensures var a := AuthorityAt(text, p);
            (NoneOf(text, ':', p + 2, first) ==>
               a.user == (if last == p + 2 then None else Some(text[p + 2..last])) && a.password == None)
            && (LastOf(text, ':', p + 2, first, u) ==>
                  a.user == (if u == p + 2 then None else Some(text[p + 2..u]))
                  && a.password == (if u + 1 == last then None else Some(text[u + 1..last])))
  {
    PartsOfAnyText(text, p, n, first, last);
    ColonOfAnyText(text, p + 2, first, u);
    UserBetween(text, p, AuthorityAt(text, p), last, u);
    assert first <= last;
  }

  lemma UserBetween(text: string, p: nat, a: Authority, last: nat, u: nat)
    requires p + 2 <= last
    ensures UserAt(text, p, a, last, 0) ==>
              a.user == (if last == p + 2 then None else Some(text[p + 2..last])) && a.password == None
    ensures UserAt(text, p, a, last, u) && p + 2 <= u < last ==>
              a.user == (if u == p + 2 then None else Some(text[p + 2..u]))
              && a.password == (if u + 1 == last then None else Some(text[u + 1..last]))
  {
  }

  /**
   Host and port of an authority with '@': they follow the last '@', and the last colon behind
   the first '@' lies between them. Before the last '@' it leaves no host.
   */
  lemma HostOfAnyText(text: string, p: nat, n: nat, first: nat, last: nat, k: nat)
    requires p + 2 <= n && AuthoritySpans(text, p, n)
    requires FirstOf(text, '@', p + 2, n, first) && LastOf(text, '@', p + 2, n, last)
    ensures var a := AuthorityAt(text, p);
            a.hostport == (if last + 1 == n then None else Some(text[last + 1..n]))
            && (NoneOf(text, ':', first + 1, n) ==> a.host == a.hostport && a.port == -1)
            && (LastOf(text, ':', first + 1, n, k) ==>
                  a.host == (if k <= last + 1 then None else Some(text[last + 1..k]))
                  && a.port == PortIn(text, k + 1, n))
  {
    PartsOfAnyText(text, p, n, first, last);
    HostWhere(text, AuthorityAt(text, p), first + 1, last, n, k);
  }

  lemma HostWhere(text: string, a: Authority, lo: nat, last: nat, n: nat, k: nat)
    requires 0 < lo <= n <= |text| && last < n && HostAt(text, a, last, n, LastIn(text, ':', lo, n))
    ensures a.hostport == if last + 1 == n then None else Some(text[last + 1..n])
    ensures NoneOf(text, ':', lo, n) ==> a.host == a.hostport && a.port == -1
    ensures LastOf(text, ':', lo, n, k) ==>
              a.host == (if k <= last + 1 then None else Some(text[last + 1..k])) && a.port == PortIn(text, k + 1, n)
  {
    ColonOfAnyText(text, lo, n, k);
    HostBetween(text, a, last, n, LastIn(text, ':', lo, n));
  }

  lemma HostBetween(text: string, a: Authority, last: nat, n: nat, colon: nat)
    requires last < n && HostAt(text, a, last, n, colon)
    ensures a.hostport == if last + 1 == n then None else Some(text[last + 1..n])
    ensures colon == 0 ==> a.host == a.hostport && a.port == -1
    ensures 0 < colon < n ==> a.host == (if colon <= last + 1 then None else Some(text[last + 1..colon]))
                              && a.port == PortIn(text, colon + 1, n)
  {
  }

  /** Without a digit in front there is no port. */
  lemma NoPort(text: string, lo: nat, hi: nat)
    requires lo <= hi <= |text| && (lo == hi || text[lo] < '0' || text[lo] > '9')
    ensures PortIn(text, lo, hi) == -1
  {
  }

  lemma {:induction false} LeadingZeros(text: string, lo: nat, p: nat, hi: nat)
    requires lo <= p <= hi <= |text| && forall k :: lo <= k < p ==> text[k] == '0'
    ensures Value(text, lo, hi) == Value(text, p, hi)
    decreases hi
  {
    if p < hi {
      LeadingZeros(text, lo, p, hi - 1);
    } else if lo < p {
      LeadingZeros(text, lo, p - 1, hi - 1);
      assert Value(text, p, hi) == 0;
      assert Value(text, p - 1, hi - 1) == 0;
    }
  }

  /** Zeros and a decimal number, up to the end or to a character that is no digit. */
  lemma PortOfAnyText(text: string, lo: nat, p: nat, n: nat, hi: nat)
    requires lo <= p && Piece(text, p, Decimal(n)) && p + |Decimal(n)| <= hi <= |text|
    requires forall k :: lo <= k < p ==> text[k] == '0'
    requires var q := p + |Decimal(n)|; q == hi || text[q] < '0' || text[q] > '9'
    ensures PortIn(text, lo, hi) == n
  {
    var q := p + |Decimal(n)|;
    PieceAt(text, p, Decimal(n));
    forall k | lo <= k < q ensures Digit(text[k]) {
      if k >= p {
        assert text[k] == Decimal(n)[k - p];
      }
    }
    assert DigitRun(text, lo, hi) == q;
    LeadingZeros(text, lo, p, q);
    ValueOfDecimal(text, p, n);
  }
}
