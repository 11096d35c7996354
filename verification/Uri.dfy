/**
 kol::URI: splitting a reference into the components of RFC 3986 section 3.
 A C string is the text before its NUL, and a pointer into it is a position of the text.
 */
module Uri {
  import opened Options

  const NUL := '\0'

  /** text[n] of a C string: NUL where the text ends. */
  function At(text: string, n: nat): char
    requires n <= |text|
  {
    if n < |text| then text[n] else NUL
  }

  predicate Alpha(c: char) { 'a' <= c <= 'z' || 'A' <= c <= 'Z' }

  predicate Digit(c: char) { '0' <= c <= '9' }

  predicate SchemeChar(c: char) { Alpha(c) || Digit(c) || c == '+' || c == '-' || c == '.' }

  /** First position from p on whose character is one of the stops, or the end. */
  function Stop(text: string, stops: set<char>, p: nat): (n: nat)
    requires p <= |text|
    ensures p <= n <= |text|
    ensures n < |text| ==> text[n] in stops
    ensures forall k :: p <= k < n ==> text[k] !in stops
    decreases |text| - p
  {
    if p == |text| || text[p] in stops then p else Stop(text, stops, p + 1)
  }

  /** First position from p on that cannot belong to a scheme, or the end. */
  function SchemeRun(text: string, p: nat): (n: nat)
    requires p <= |text|
    ensures p <= n <= |text|
    ensures n < |text| ==> !SchemeChar(text[n])
    ensures forall k :: p <= k < n ==> SchemeChar(text[k])
    decreases |text| - p
  {
    if p == |text| || !SchemeChar(text[p]) then p else SchemeRun(text, p + 1)
  }

  /** Last position of c in text[lo..hi], 0 if it is not there. */
  function LastIn(text: string, c: char, lo: nat, hi: nat): (k: nat)
    requires 0 < lo && hi <= |text|
    ensures k == 0 || (lo <= k < hi && text[k] == c)
    decreases hi
  {
    if hi <= lo then 0 else if text[hi - 1] == c then hi - 1 else LastIn(text, c, lo, hi - 1)
  }

  /** First position of c in text[lo..hi], 0 if it is not there. */
  function FirstIn(text: string, c: char, lo: nat, hi: nat): (k: nat)
    requires 0 < lo && hi <= |text|
    ensures k == 0 || (lo <= k < hi && text[k] == c)
    decreases hi
  {
    if hi <= lo then 0
    else
      var k := FirstIn(text, c, lo, hi - 1);
      if k != 0 then k else if text[hi - 1] == c then hi - 1 else 0
  }

  /** First position of text[lo..hi] that is not a digit, or hi. */
  function DigitRun(text: string, lo: nat, hi: nat): (n: nat)
    requires lo <= hi <= |text|
    ensures lo <= n <= hi && (n < hi ==> !Digit(text[n]))
    ensures forall k :: lo <= k < n ==> Digit(text[k])
    decreases hi - lo
  {
    if lo == hi || !Digit(text[lo]) then lo else DigitRun(text, lo + 1, hi)
  }

  /** The decimal number text[lo..hi]. */
  function Value(text: string, lo: nat, hi: nat): int
    requires lo <= hi <= |text|
    decreases hi
  {
    if lo == hi then 0 else Value(text, lo, hi - 1) * 10 + (text[hi - 1] as int - '0' as int)
  }

  /** The number at the head of text[lo..hi], -1 if that does not start with a digit. */
  function PortIn(text: string, lo: nat, hi: nat): int
    requires lo <= hi <= |text|
  {
    var end := DigitRun(text, lo, hi);
    if end == lo then -1 else Value(text, lo, end)
  }

  /** A component; a null pointer, None here, where it would be empty. */
  function Slice(text: string, lo: nat, hi: nat): Option<string>
    requires hi <= |text|
  {
    if lo < hi then Some(text[lo..hi]) else None
  }

  datatype Authority =
    Authority(user: Option<string>, password: Option<string>, hostport: Option<string>, host: Option<string>, port: int)

  const NO_AUTHORITY := Authority(None, None, None, None, -1)

  datatype Parts = Parts(scheme: Option<string>, authority: Authority, path: Option<string>,
                         query: Option<string>, fragment: Option<string>)

  /** Where "scheme:" ends, p if there is none. */
  function SchemeEnd(text: string, p: nat): (n: nat)
    requires p <= |text|
    ensures p <= n <= |text|
  {
    if p == |text| || !Alpha(text[p]) then p
    else
      var n := SchemeRun(text, p + 1);
      if n < |text| && text[n] == ':' then n + 1 else p
  }

  predicate HasAuthority(text: string, p: nat) {
    p + 2 <= |text| && text[p] == '/' && text[p + 1] == '/'
  }

  function AuthorityEnd(text: string, p: nat): (n: nat)
    requires p <= |text|
    ensures p <= n <= |text| && (HasAuthority(text, p) ==> p + 2 <= n)
  {
    if HasAuthority(text, p) then Stop(text, {'/', '?', '#'}, p + 2) else p
  }

  /** Where an authority ends its user name, its user information, and its host. */
  datatype Bounds = Bounds(user: nat, at: nat, host: nat)

  /**
   The last '@' ends the user information, whose last ':' before the first '@' ends the user
   name; the last ':' after the first '@', or in all of it when there is no '@', ends the host.
   */
  function BoundsAt(text: string, p: nat): (b: Bounds)
    requires HasAuthority(text, p)
    ensures b.user <= AuthorityEnd(text, p) && b.at <= AuthorityEnd(text, p) && b.host <= AuthorityEnd(text, p)
  {
    var n := AuthorityEnd(text, p);
    var first, at := FirstIn(text, '@', p + 2, n), LastIn(text, '@', p + 2, n);
    if first == 0 then
      var colon := LastIn(text, ':', p + 2, n);
      Bounds(p, p + 1, if colon == 0 then n else colon)
    else
      var split, colon := LastIn(text, ':', p + 2, first), LastIn(text, ':', first + 1, n);
      Bounds(if split == 0 then at else split, at, if colon == 0 then n else colon)
  }

  /** user [":" password] "@" host [":" port], the host and port together as hostport. */
  function AuthorityAt(text: string, p: nat): Authority
    requires p <= |text|
  {
    if !HasAuthority(text, p) then NO_AUTHORITY
    else
      var b, n := BoundsAt(text, p), AuthorityEnd(text, p);
      Authority(Slice(text, p + 2, b.user), Slice(text, b.user + 1, b.at), Slice(text, b.at + 1, n),
                Slice(text, b.at + 1, b.host), if b.host < n then PortIn(text, b.host + 1, n) else -1)
  }

  function PathEnd(text: string, p: nat): (n: nat)
    requires p <= |text|
    ensures p <= n <= |text|
  {
    Stop(text, {'?', '#'}, p)
  }

  function QueryEnd(text: string, p: nat): (n: nat)
    requires p <= |text|
    ensures p <= n <= |text|
  {
    if p < |text| && text[p] == '?' then Stop(text, {'#'}, p + 1) else p
  }

  function FragmentEnd(text: string, p: nat): (n: nat)
    requires p <= |text|
    ensures p <= n <= |text|
  {
    if p < |text| && text[p] == '#' then |text| else p
  }

  /** The whole reference, component after component. */
  function Parse(text: string): Parts {
    var p1 := SchemeEnd(text, 0);
    var p2 := AuthorityEnd(text, p1);
    var p3 := PathEnd(text, p2);
    var p4 := QueryEnd(text, p3);
    Parts(if p1 == 0 then None else Slice(text, 0, p1 - 1), AuthorityAt(text, p1), Slice(text, p2, p3),
          Slice(text, p3 + 1, p4), Slice(text, p4 + 1, FragmentEnd(text, p4)))
  }

  /** The separators before n, as the scanning loop keeps them. */
  ghost predicate Found(text: string, p: nat, n: nat, ncol1: nat, ncol2: nat, nAt: nat)
    requires n <= |text|
  {
    var first := FirstIn(text, '@', p + 2, n);
    nAt == LastIn(text, '@', p + 2, n) && first <= nAt && (nAt == 0 <==> first == 0)
    && ncol1 == LastIn(text, ':', p + 2, if first == 0 then n else first)
    && ncol2 == if first == 0 then 0 else LastIn(text, ':', first + 1, n)
  }

  /** The loop passes one more character. */
  lemma FoundNext(text: string, p: nat, n: nat, ncol1: nat, ncol2: nat, nAt: nat)
    requires p + 2 <= n < |text| && Found(text, p, n, ncol1, ncol2, nAt)
    ensures var c := text[n];
            Found(text, p, n + 1, if c == ':' && nAt == 0 then n else ncol1,
                  if c == ':' && nAt != 0 then n else ncol2, if c == '@' then n else nAt)
  {
  }

  class URI {
    var scheme: Option<string>
    var user: Option<string>
    var password: Option<string>
    var hostport: Option<string>
    var host: Option<string>
    var port: int
    var path: Option<string>
    var query: Option<string>
    var fragment: Option<string>

    function Components(): Parts reads this {
      Parts(scheme, Authority(user, password, hostport, host, port), path, query, fragment)
    }

    constructor (text: string)
      ensures Components() == Parse(text)
    {
      scheme, user, password, hostport, host, port := None, None, None, None, None, -1;
      path, query, fragment := None, None, None;
      new;
      ghost var whole := Parse(text);
      var s1 := SetScheme(text, 0);
      assert scheme == whole.scheme;
      var s2 := SetAuthority(text, s1);
      assert Components().authority == whole.authority;
      var s3 := SetPath(text, s2);
      assert path == whole.path;
      var s4 := SetQuery(text, s3);
      assert query == whole.query;
      var s5 := SetFragment(text, s4);
    }

    method SetScheme(text: string, s: nat) returns (t: nat)
      requires s <= |text| && scheme == None
      modifies this`scheme
      ensures t == SchemeEnd(text, s) && scheme == if t == s then None else Slice(text, s, t - 1)
    {
      if !Alpha(At(text, s)) {
        return s;
      }
      var n := s + 1;
      while n < |text|
        invariant s + 1 <= n <= |text| && SchemeRun(text, s + 1) == SchemeRun(text, n)
      {
        if !SchemeChar(text[n]) {
          break;
        }
        n := n + 1;
      }
      if At(text, n) != ':' {
        return s;
      }
      scheme := Some(text[s..n]);
      return n + 1;
    }

    /** The loop of set_authority: where it stops, and the separators it passed. */
    method Scan(text: string, s: nat) returns (n: nat, ncol1: nat, ncol2: nat, nAt: nat)
      requires HasAuthority(text, s)
      ensures n == AuthorityEnd(text, s) && Found(text, s, n, ncol1, ncol2, nAt)
    {
      n, ncol1, ncol2, nAt := s + 2, 0, 0, 0;
      while n < |text|
        invariant s + 2 <= n <= |text| && AuthorityEnd(text, s) == Stop(text, {'/', '?', '#'}, n)
        invariant Found(text, s, n, ncol1, ncol2, nAt)
      {
        var c := text[n];
        if c == '/' || c == '?' || c == '#' {
          break;
        }
        FoundNext(text, s, n, ncol1, ncol2, nAt);
        if c == ':' {
          if nAt == 0 {
            ncol1 := n;
          } else {
            ncol2 := n;
          }
        }
        if c == '@' {
          nAt := n;
        }
        n := n + 1;
      }
    }

    /** The marks between the components: user, ncol1, password, nAt, host, ncol2, port, n. */
    method Marks(text: string, s: nat) returns (n: nat, ncol1: nat, ncol2: nat, nAt: nat)
      requires HasAuthority(text, s)
      ensures n == AuthorityEnd(text, s) && Bounds(ncol1, nAt, ncol2) == BoundsAt(text, s)
    {
      n, ncol1, ncol2, nAt := Scan(text, s);
      if nAt == 0 {
        if ncol1 >= s + 2 {
          ncol2 := ncol1;
        }
        ncol1 := s;
      } else if ncol1 == 0 || ncol1 > nAt {
        ncol1 := nAt;
      }
      if nAt == 0 {
        nAt := s + 1;
      }
      if ncol2 == 0 {
        ncol2 := n;
      }
    }

    method SetAuthority(text: string, s: nat) returns (t: nat)
      requires s <= |text|
      requires user == None && password == None && hostport == None && host == None && port == -1
      modifies this`user, this`password, this`hostport, this`host, this`port
      ensures t == AuthorityEnd(text, s)
      ensures Authority(user, password, hostport, host, port) == AuthorityAt(text, s)
    {
      if At(text, s) != '/' || At(text, s + 1) != '/' {
        return s;
      }
      var n, ncol1, ncol2, nAt := Marks(text, s);
      if ncol1 > s + 2 {
        user := Some(text[s + 2..ncol1]);
      }
      if nAt > ncol1 + 1 {
        password := Some(text[ncol1 + 1..nAt]);
      }
      if n > nAt + 1 {
        hostport := Some(text[nAt + 1..n]);
      }
      if ncol2 > nAt + 1 {
        host := Some(text[nAt + 1..ncol2]);
      }
      if n > ncol2 + 1 {
        SetPort(text, ncol2 + 1, n);
      }
      return n;
    }

    /** The port's loop: digits up to the first other character. */
    method SetPort(text: string, lo: nat, hi: nat)
      requires lo <= hi <= |text| && port == -1
      modifies this`port
      ensures port == PortIn(text, lo, hi)
    {
      var value := 0;
      var i := lo;
      while i < hi
        invariant lo <= i <= hi && DigitRun(text, lo, hi) == DigitRun(text, i, hi)
        invariant value == Value(text, lo, i) && port == if i == lo then -1 else value
      {
        var c := text[i];
        if !Digit(c) {
          break;
        }
        value := value * 10 + (c as int - '0' as int);
        port := value;
        i := i + 1;
      }
    }

    method SetPath(text: string, s: nat) returns (t: nat)
      requires s <= |text| && path == None
      modifies this`path
      ensures t == PathEnd(text, s) && path == Slice(text, s, t)
    {
      if s == |text| {
        return s;
      }
      var n := s;
      while n < |text|
        invariant s <= n <= |text| && PathEnd(text, s) == PathEnd(text, n)
      {
        if text[n] == '?' || text[n] == '#' {
          break;
        }
        n := n + 1;
      }
      if n > s {
        path := Some(text[s..n]);
      }
      return n;
    }

    method SetQuery(text: string, s: nat) returns (t: nat)
      requires s <= |text| && query == None
      modifies this`query
      ensures t == QueryEnd(text, s) && query == Slice(text, s + 1, t)
    {
      if At(text, s) != '?' {
        return s;
      }
      var n := s + 1;
      while n < |text|
        invariant s + 1 <= n <= |text| && QueryEnd(text, s) == Stop(text, {'#'}, n)
      {
        if text[n] == '#' {
          break;
        }
        n := n + 1;
      }
      if n > s + 1 {
        query := Some(text[s + 1..n]);
      }
      return n;
    }

    method SetFragment(text: string, s: nat) returns (t: nat)
      requires s <= |text| && fragment == None
      modifies this`fragment
      ensures t == FragmentEnd(text, s) && fragment == Slice(text, s + 1, t)
    {
      if At(text, s) != '#' {
        return s;
      }
      var n := s + 1;
      while n < |text|
        invariant s + 1 <= n <= |text|
      {
        n := n + 1;
      }
      if n > s + 1 {
        fragment := Some(text[s + 1..n]);
      }
      return n;
    }
  }
}
