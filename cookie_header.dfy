/** How NativeSessionMiddleware reads the `Cookie` request header: the
    `preg_split` on `;` with the whitespace around each `;` absorbed, PHP's
    truthiness filter (`array_filter` and `if ($cookieString)`), the
    `name=value` reading of each segment, the collection keyed by name, and
    the lookup of the session cookie with `''` as default. */
module CookieHeader {

  /** A character matched by PCRE's `\s` outside Unicode mode:
      space, tab, line feed, vertical tab, form feed, carriage return. */
  predicate IsSpace(c: char) {
    c == ' ' || c == '\t' || c == '\n' || c == '\U{0B}' || c == '\U{0C}' || c == '\r'
  }

  /** PHP's truthiness of a string: only `""` and `"0"` are falsy. */
  predicate IsTruthy(s: string) {
    s != "" && s != "0"
  }

  /** The index of the first `c` in `s`, or `|s|` when `s` has none. */
  function IndexOf(s: string, c: char): (k: nat)
    ensures k <= |s|
    ensures k < |s| ==> s[k] == c
    ensures forall j :: 0 <= j < k ==> s[j] != c
  {
    if s == [] then 0
    else if s[0] == c then 0
    else 1 + IndexOf(s[1..], c)
  }

  /** `s` without its leading whitespace: no longer than `s`, and not
      starting with whitespace (TrimLeftCutsSpace says what was cut). */
  function TrimLeft(s: string): (r: string)
    ensures |r| <= |s|
    ensures r == [] || !IsSpace(r[0])
  {
    if s != [] && IsSpace(s[0]) then TrimLeft(s[1..]) else s
  }

  /** `s` without its trailing whitespace: no longer than `s`, and not
      ending with whitespace (TrimRightCutsSpace says what was cut). */
  function TrimRight(s: string): (r: string)
    ensures |r| <= |s|
    ensures r == [] || !IsSpace(r[|r| - 1])
  {
    if s != [] && IsSpace(s[|s| - 1]) then TrimRight(s[..|s| - 1]) else s
  }

  /** TrimLeft keeps a suffix of `s` and cuts off whitespace only. */
  lemma {:induction false} TrimLeftCutsSpace(s: string)
    ensures TrimLeft(s) == s[|s| - |TrimLeft(s)|..]
    ensures forall i :: 0 <= i < |s| - |TrimLeft(s)| ==> IsSpace(s[i])
    decreases |s|
  {
    if s != [] && IsSpace(s[0]) {
      TrimLeftCutsSpace(s[1..]);
    }
  }

  /** TrimRight keeps a prefix of `s` and cuts off whitespace only. */
  lemma {:induction false} TrimRightCutsSpace(s: string)
    ensures TrimRight(s) == s[..|TrimRight(s)|]
    ensures forall i :: |TrimRight(s)| <= i < |s| ==> IsSpace(s[i])
    decreases |s|
  {
    if s != [] && IsSpace(s[|s| - 1]) {
      TrimRightCutsSpace(s[..|s| - 1]);
    }
  }

  /** `preg_split('@\s*[;]\s*@', s)`. The leftmost match of the pattern
      starts at the whitespace run just before the first `;` and, the second
      `\s*` being greedy, ends after the whitespace run just after it; the
      search then resumes there. */
  function SplitOnSemicolons(s: string): (pieces: seq<string>)
    ensures |pieces| >= 1
    decreases |s|
  {
    var k := IndexOf(s, ';');
    if k == |s| then [s]
    else [TrimRight(s[..k])] + SplitOnSemicolons(TrimLeft(s[k + 1..]))
  }

  /** The pieces put back together, with `;` between neighbours. */
  function Join(pieces: seq<string>): string
  {
    if pieces == [] then ""
    else if |pieces| == 1 then pieces[0]
    else pieces[0] + ";" + Join(pieces[1..])
  }

  /** No `;` of `s` has whitespace right before or right after it. */
  predicate TightlyDelimited(s: string) {
    forall i :: 0 <= i < |s| && s[i] == ';' ==>
      (i == 0 || !IsSpace(s[i - 1])) && (i == |s| - 1 || !IsSpace(s[i + 1]))
  }

  /** Pieces that `Join` glues back without ambiguity: none holds a `;`, none
      but the first starts with whitespace, none but the last ends with it. */
  predicate Unpadded(pieces: seq<string>) {
    (forall i :: 0 <= i < |pieces| ==> ';' !in pieces[i]) &&
    (forall i :: 0 < i < |pieces| && pieces[i] != [] ==> !IsSpace(pieces[i][0])) &&
    (forall i :: 0 <= i < |pieces| - 1 && pieces[i] != [] ==> !IsSpace(pieces[i][|pieces[i]| - 1]))
  }

  /** `array_filter` on a list of strings: the truthy ones, in their order. */
  function FilterTruthy(pieces: seq<string>): (kept: seq<string>)
    ensures forall i :: 0 <= i < |kept| ==> IsTruthy(kept[i])
  {
    if pieces == [] then []
    else if IsTruthy(pieces[0]) then [pieces[0]] + FilterTruthy(pieces[1..])
    else FilterTruthy(pieces[1..])
  }

  /** `r` is `s` with some elements left out and the others in their order. */
  predicate IsSubsequence(r: seq<string>, s: seq<string>)
    decreases |s|
  {
    r == [] ||
    (s != [] && ((r[0] == s[0] && IsSubsequence(r[1..], s[1..])) || IsSubsequence(r, s[1..])))
  }

  /** `splitOnAttributeDelimiter`: the split, then `array_filter`. Every
      segment it returns is truthy and free of `;`. */
  function SplitOnAttributeDelimiter(header: string): (segments: seq<string>)
    ensures forall i :: 0 <= i < |segments| ==> IsTruthy(segments[i]) && ';' !in segments[i]
  {
    var pieces := SplitOnSemicolons(header);
    SplitPiecesHaveNoDelimiter(header);
    FilterKeepsTruthy(pieces);
    assert forall x :: x in FilterTruthy(pieces) ==> x in pieces by {
      forall x | x in FilterTruthy(pieces) ensures x in pieces {
        assert multiset(FilterTruthy(pieces))[x] > 0;
      }
    }
    FilterTruthy(pieces)
  }

  /** A cookie as read from a request header segment. */
  datatype RequestCookie = RequestCookie(name: string, value: string)

  /** A header segment read as `name=value`, cut at its first `=`; a segment
      without `=` is a name with the empty value. */
  function ParseCookie(segment: string): (c: RequestCookie)
    ensures '=' !in c.name
    ensures if '=' in segment then segment == c.name + "=" + c.value
            else c == RequestCookie(segment, "")
  {
    var k := IndexOf(segment, '=');
    if k == |segment| then RequestCookie(segment, "")
    else RequestCookie(segment[..k], segment[k + 1..])
  }

  /** Each segment parsed, in order. */
  function ParseAll(segments: seq<string>): seq<RequestCookie>
  {
    seq(|segments|, i requires 0 <= i < |segments| => ParseCookie(segments[i]))
  }

  /** Every surviving segment of the header, parsed, in header order. */
  function RequestCookies(header: string): seq<RequestCookie>
  {
    ParseAll(SplitOnAttributeDelimiter(header))
  }

  /** The cookie collection keyed by name, filled in order: a later cookie
      with the same name replaces an earlier one (CollectKeepsLast). */
  function Collect(cookies: seq<RequestCookie>): (jar: map<string, string>)
    ensures forall i :: 0 <= i < |cookies| ==> cookies[i].name in jar
  {
    if cookies == [] then map[]
    else
      var last := cookies[|cookies| - 1];
      Collect(cookies[..|cookies| - 1])[last.name := last.value]
  }

  /** A name is in the collection exactly when some cookie has it, and then
      it maps to the value of the last cookie that has it. */
  lemma {:induction false} CollectKeepsLast(cookies: seq<RequestCookie>, n: string)
    ensures n in Collect(cookies) <==> exists i :: 0 <= i < |cookies| && cookies[i].name == n
    ensures n in Collect(cookies) ==>
      exists i :: 0 <= i < |cookies| && cookies[i] == RequestCookie(n, Collect(cookies)[n]) &&
        forall j :: i < j < |cookies| ==> cookies[j].name != n
    decreases |cookies|
  {
    if cookies != [] {
      var m := |cookies| - 1;
      var init := cookies[..m];
      CollectKeepsLast(init, n);
      assert forall i :: 0 <= i < m ==> cookies[i] == init[i];
      if cookies[m].name != n {
        if n in Collect(cookies) {
          var i :| 0 <= i < m && init[i] == RequestCookie(n, Collect(init)[n]) &&
            forall j :: i < j < m ==> init[j].name != n;
          assert cookies[i] == RequestCookie(n, Collect(cookies)[n]);
        }
      }
    }
  }

  /** `CookieCollection::getValue($name, $default)`. */
  function GetValue(jar: map<string, string>, name: string, default: string): (value: string)
    ensures name in jar ==> value == jar[name]
    ensures name !in jar ==> value == default
  {
    if name in jar then jar[name] else default
  }

  /** The session id a request carries: the value of the last cookie named
      `name` in its header, or `""` when there is none. Never fails. */
  function SessionIdFromHeader(header: string, name: string): (id: string)
    ensures var cookies := RequestCookies(header);
      ((forall i :: 0 <= i < |cookies| ==> cookies[i].name != name) ==> id == "") &&
      ((exists i :: 0 <= i < |cookies| && cookies[i].name == name) ==>
        exists i :: 0 <= i < |cookies| && cookies[i] == RequestCookie(name, id) &&
          forall j :: i < j < |cookies| ==> cookies[j].name != name)
  {
    CollectKeepsLast(RequestCookies(header), name);
    GetValue(Collect(RequestCookies(header)), name, "")
  }

  /** `cookiesFromRequest`: loops over the split header and collects the
      parsed cookies of the truthy segments. */
  method CookiesFromRequest(header: string) returns (jar: map<string, string>)
    ensures jar == Collect(RequestCookies(header))
  {
    var segments := SplitOnAttributeDelimiter(header);
    var cookies: seq<RequestCookie> := [];
    for i := 0 to |segments|
      invariant |cookies| == i
      invariant forall j :: 0 <= j < i ==> cookies[j] == ParseCookie(segments[j])
    {
      if IsTruthy(segments[i]) {
        cookies := cookies + [ParseCookie(segments[i])];
      }
    }
    assert cookies == ParseAll(segments);
    jar := Collect(cookies);
  }

  // ---------------------------------------------------------------------
  // Properties of the split
  // ---------------------------------------------------------------------

  /** No piece of the split holds a `;`. */
  lemma {:induction false} SplitPiecesHaveNoDelimiter(s: string)
    ensures forall p :: p in SplitOnSemicolons(s) ==> ';' !in p
    decreases |s|
  {
    var k := IndexOf(s, ';');
    if k < |s| {
      var rest := TrimLeft(s[k + 1..]);
      SplitPiecesHaveNoDelimiter(rest);
      var first := TrimRight(s[..k]);
      TrimRightCutsSpace(s[..k]);
      assert first == s[..|first|];
      assert forall j :: 0 <= j < |first| ==> first[j] != ';';
    }
  }

  /** The first piece is the header's beginning. */
  lemma SplitFirstPiece(s: string)
    ensures var first := SplitOnSemicolons(s)[0]; |first| <= |s| && first == s[..|first|]
  {
    var k := IndexOf(s, ';');
    if k < |s| {
      TrimRightCutsSpace(s[..k]);
    }
  }

  /** The whitespace next to every `;` is gone: no piece but the first starts
      with whitespace and no piece but the last ends with it. */
  lemma {:induction false} SplitPiecesAreUnpadded(s: string)
    ensures Unpadded(SplitOnSemicolons(s))
    decreases |s|
  {
    SplitPiecesHaveNoDelimiter(s);
    var pieces := SplitOnSemicolons(s);
    var k := IndexOf(s, ';');
    if k < |s| {
      var t := TrimLeft(s[k + 1..]);
      var rest := SplitOnSemicolons(t);
      SplitPiecesAreUnpadded(t);
      SplitFirstPiece(t);
      assert pieces == [TrimRight(s[..k])] + rest;
      assert rest[0] != [] ==> rest[0][0] == t[0];
      forall i | 0 < i < |pieces| && pieces[i] != []
        ensures !IsSpace(pieces[i][0])
      {
        assert pieces[i] == rest[i - 1];
      }
      forall i | 0 <= i < |pieces| - 1 && pieces[i] != []
        ensures !IsSpace(pieces[i][|pieces[i]| - 1])
      {
        if i > 0 { assert pieces[i] == rest[i - 1]; }
      }
    }
  }

  /** How many times `c` occurs in `s`. */
  function Occurrences(s: string, c: char): nat
  {
    if s == [] then 0 else (if s[0] == c then 1 else 0) + Occurrences(s[1..], c)
  }

  lemma {:induction false} OccurrencesOfConcat(a: string, b: string, c: char)
    ensures Occurrences(a + b, c) == Occurrences(a, c) + Occurrences(b, c)
    decreases |a|
  {
    if a == [] {
      assert a + b == b;
    } else {
      assert (a + b)[1..] == a[1..] + b;
      OccurrencesOfConcat(a[1..], b, c);
    }
  }

  lemma {:induction false} OccurrencesOfAbsent(a: string, c: char)
    requires forall i :: 0 <= i < |a| ==> a[i] != c
    ensures Occurrences(a, c) == 0
    decreases |a|
  {
    if a != [] {
      OccurrencesOfAbsent(a[1..], c);
    }
  }

  /** The split yields one piece more than the header has `;`. */
  lemma {:induction false} SplitPieceCount(s: string)
    ensures |SplitOnSemicolons(s)| == Occurrences(s, ';') + 1
    decreases |s|
  {
    var k := IndexOf(s, ';');
    if k == |s| {
      OccurrencesOfAbsent(s, ';');
    } else {
      var t := TrimLeft(s[k + 1..]);
      SplitPieceCount(t);
      DelimitersAfterFirst(s, k);
    }
  }

  /** Cutting `s` at position `k` splits the count of `c`. */
  lemma OccurrencesAround(s: string, k: nat, c: char)
    requires k < |s|
    ensures Occurrences(s, c) == Occurrences(s[..k], c) + (if s[k] == c then 1 else 0) + Occurrences(s[k + 1..], c)
  {
    assert s == s[..k] + s[k..];
    OccurrencesOfConcat(s[..k], s[k..], c);
    assert s[k..][1..] == s[k + 1..];
  }

  /** Past the first `;` and the whitespace after it, one `;` fewer is left. */
  lemma DelimitersAfterFirst(s: string, k: nat)
    requires k == IndexOf(s, ';') < |s|
    ensures Occurrences(s, ';') == 1 + Occurrences(TrimLeft(s[k + 1..]), ';')
  {
    var u := s[k + 1..];
    var t := TrimLeft(u);
    var d := |u| - |t|;
    OccurrencesAround(s, k, ';');
    OccurrencesOfAbsent(s[..k], ';');
    TrimLeftCutsSpace(u);
    assert u == u[..d] + t;
    OccurrencesOfConcat(u[..d], t, ';');
    OccurrencesOfAbsent(u[..d], ';');
  }

  /** A header without `;` is one piece. */
  lemma SplitWithoutDelimiter(s: string)
    requires ';' !in s
    ensures SplitOnSemicolons(s) == [s]
  {
    assert IndexOf(s, ';') == |s|;
  }

  /** Where a `;`-free beginning `p` is followed by `;`, the split cuts there. */
  lemma SplitAfterPrefix(p: string, rest: string)
    requires ';' !in p
    ensures SplitOnSemicolons(p + ";" + rest) == [TrimRight(p)] + SplitOnSemicolons(TrimLeft(rest))
  {
    var s := p + ";" + rest;
    assert s[|p|] == ';';
    assert forall j :: 0 <= j < |p| ==> s[j] == p[j];
    var k := IndexOf(s, ';');
    assert k == |p|;
    assert s[..k] == p;
    assert s[k + 1..] == rest;
  }

  /** Splitting joined unpadded pieces gives the pieces back. */
  lemma {:induction false} SplitOfJoin(pieces: seq<string>)
    requires |pieces| >= 1 && Unpadded(pieces)
    ensures SplitOnSemicolons(Join(pieces)) == pieces
    decreases |pieces|
  {
    if |pieces| == 1 {
      SplitWithoutDelimiter(pieces[0]);
    } else {
      var p := pieces[0];
      var tail := pieces[1..];
      var j := Join(tail);
      UnpaddedTail(pieces);
      SplitOfJoin(tail);
      SplitAfterPrefix(p, j);
      assert TrimRight(p) == p;
      JoinStart(tail);
      assert TrimLeft(j) == j;
    }
  }

  /** Unpadded pieces stay unpadded without their first. */
  lemma UnpaddedTail(pieces: seq<string>)
    requires |pieces| >= 1 && Unpadded(pieces)
    ensures Unpadded(pieces[1..])
  {
    var tail := pieces[1..];
    assert forall i :: 0 <= i < |tail| ==> tail[i] == pieces[i + 1];
  }

  /** A join of unpadded pieces after the first does not start with whitespace. */
  lemma JoinStart(tail: seq<string>)
    requires |tail| >= 1
    requires tail[0] == [] || !IsSpace(tail[0][0])
    ensures Join(tail) == [] || !IsSpace(Join(tail)[0])
  {
    if |tail| > 1 {
      assert Join(tail) == tail[0] + ";" + Join(tail[1..]);
      assert Join(tail)[0] == if tail[0] == [] then ';' else tail[0][0];
    }
  }

  /** Joining the pieces of a header without padding around its `;` gives
      the header back. */
  lemma {:induction false} JoinOfSplit(s: string)
    requires TightlyDelimited(s)
    ensures Join(SplitOnSemicolons(s)) == s
    decreases |s|
  {
    var k := IndexOf(s, ';');
    if k == |s| {
      assert ';' !in s;
      SplitWithoutDelimiter(s);
    } else {
      var p := s[..k];
      var u := s[k + 1..];
      assert s == p + ";" + u;
      assert ';' !in p;
      SplitAfterPrefix(p, u);
      assert TrimRight(p) == p by {
        if k > 0 { assert p[k - 1] == s[k - 1]; }
      }
      assert TrimLeft(u) == u by {
        if u != [] { assert u[0] == s[k + 1]; }
      }
      assert TightlyDelimited(u) by {
        forall i | 0 <= i < |u| && u[i] == ';'
          ensures (i == 0 || !IsSpace(u[i - 1])) && (i == |u| - 1 || !IsSpace(u[i + 1]))
        {
          assert u[i] == s[k + 1 + i];
        }
      }
      JoinOfSplit(u);
      var rest := SplitOnSemicolons(u);
      assert ([p] + rest)[1..] == rest;
    }
  }

  // ---------------------------------------------------------------------
  // Properties of the filter, the parse and the lookup
  // ---------------------------------------------------------------------

  /** The filter drops every falsy segment and keeps every truthy one, as
      many times as it occurs. */
  lemma {:induction false} FilterKeepsTruthy(pieces: seq<string>)
    ensures forall x :: multiset(FilterTruthy(pieces))[x] == if IsTruthy(x) then multiset(pieces)[x] else 0
    decreases |pieces|
  {
    if pieces != [] {
      FilterKeepsTruthy(pieces[1..]);
      assert pieces == [pieces[0]] + pieces[1..];
    }
  }

  /** The filter keeps the surviving segments in their original order. */
  lemma {:induction false} FilterKeepsOrder(pieces: seq<string>)
    ensures IsSubsequence(FilterTruthy(pieces), pieces)
    decreases |pieces|
  {
    if pieces != [] {
      FilterKeepsOrder(pieces[1..]);
      var kept := FilterTruthy(pieces);
      if IsTruthy(pieces[0]) {
        assert kept == [pieces[0]] + FilterTruthy(pieces[1..]);
        assert kept[1..] == FilterTruthy(pieces[1..]);
      }
    }
  }

  /** A `name=value` segment parses back to that name and value when the
      name holds no `=`. */
  lemma ParseOfPair(name: string, value: string)
    requires '=' !in name
    ensures ParseCookie(name + "=" + value) == RequestCookie(name, value)
  {
    var s := name + "=" + value;
    assert s[|name|] == '=';
    var c := ParseCookie(s);
    assert s == c.name + "=" + c.value;
    assert c.name == s[..|name|] == name;
    assert c.value == s[|name| + 1..] == value;
  }

  /** The filter and the parse go piece by piece: a truthy first piece comes
      out first. */
  lemma CookiesOfTruthyFirst(seg: string, rest: seq<string>)
    requires IsTruthy(seg)
    ensures ParseAll(FilterTruthy([seg] + rest)) == [ParseCookie(seg)] + ParseAll(FilterTruthy(rest))
  {
    assert ([seg] + rest)[1..] == rest;
    assert FilterTruthy([seg] + rest) == [seg] + FilterTruthy(rest);
  }

  /** The cookies of a header that starts with `name=id`: that cookie, then
      those of whatever follows the next `;`. */
  lemma CookiesOfEcho(name: string, id: string, tail: string)
    requires '=' !in name && ';' !in name
    requires ';' !in id && (id == [] || !IsSpace(id[|id| - 1]))
    requires tail == [] || tail[0] == ';'
    ensures RequestCookies(name + "=" + id + tail) ==
      [RequestCookie(name, id)] + if tail == [] then [] else RequestCookies(TrimLeft(tail[1..]))
  {
    var seg := name + "=" + id;
    assert ';' !in seg;
    assert TrimRight(seg) == seg by {
      assert seg[|seg| - 1] == if id == [] then '=' else id[|id| - 1];
    }
    assert IsTruthy(seg) by { assert seg[|name|] == '='; }
    ParseOfPair(name, id);
    if tail == [] {
      assert seg + tail == seg;
      SplitWithoutDelimiter(seg);
      CookiesOfTruthyFirst(seg, []);
      assert [seg] + [] == [seg];
    } else {
      assert seg + tail == seg + ";" + tail[1..];
      SplitAfterPrefix(seg, tail[1..]);
      CookiesOfTruthyFirst(seg, SplitOnSemicolons(TrimLeft(tail[1..])));
    }
  }

  /** A header that starts with the session cookie as `name=id` (the form a
      client sends back, or the `Set-Cookie` line with its attributes after a
      `;`) yields `id` as the session id, as long as no later segment is
      named `name`. */
  lemma EchoedSessionCookie(name: string, id: string, tail: string)
    requires '=' !in name && ';' !in name
    requires ';' !in id && (id == [] || !IsSpace(id[|id| - 1]))
    requires tail == [] ||
      (tail[0] == ';' &&
       forall c :: c in RequestCookies(TrimLeft(tail[1..])) ==> c.name != name)
    ensures SessionIdFromHeader(name + "=" + id + tail, name) == id
  {
    var header := name + "=" + id + tail;
    CookiesOfEcho(name, id, tail);
    var cookies := RequestCookies(header);
    assert cookies[0] == RequestCookie(name, id);
    forall j | 0 < j < |cookies| ensures cookies[j].name != name {
      assert cookies[j] in RequestCookies(TrimLeft(tail[1..]));
    }
    var r := SessionIdFromHeader(header, name);
    var i :| 0 <= i < |cookies| && cookies[i] == RequestCookie(name, r);
    assert i == 0;
  }
}
