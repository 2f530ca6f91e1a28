/** The JavaScript string built-ins the collection helpers and the benchmark
    body builder rely on (`split`, `join`, `trim`, `includes`, `repeat`, ASCII
    case mapping), stated over `seq<char>`, with the facts about them that the
    rest of the model needs. */
module JsStrings {

  // ---------------------------------------------------------------------------
  // Character classes

  /** The characters of the regular-expression class `\s`; `trim()` strips the same set. */
  predicate IsSpace(c: char) {
    c == '\t' || c == '\n' || c == '\U{000B}' || c == '\U{000C}' || c == '\r' || c == ' '
    || c == '\U{00A0}' || c == '\U{1680}' || ('\U{2000}' <= c <= '\U{200A}')
    || c == '\U{2028}' || c == '\U{2029}' || c == '\U{202F}' || c == '\U{205F}'
    || c == '\U{3000}' || c == '\U{FEFF}'
  }

  /** `[A-Z]` */
  predicate IsUpper(c: char) { 'A' <= c <= 'Z' }

  /** `[\d]` */
  predicate IsDigit(c: char) { '0' <= c <= '9' }

  /** `[\da-z]` */
  predicate IsLowerOrDigit(c: char) { IsDigit(c) || 'a' <= c <= 'z' }

  /** No character of `s` is in the class `cls`. */
  predicate NoneIn(s: string, cls: char -> bool) {
    forall i :: 0 <= i < |s| ==> !cls(s[i])
  }

  /** Upper-casing of one character, restricted to ASCII. */
  function UpperChar(c: char): (u: char)
    ensures u == ' ' <==> c == ' '
    ensures u == '-' <==> c == '-'
    ensures 'a' <= c <= 'z' ==> IsUpper(u) && LowerChar(u) == c
    ensures !('a' <= c <= 'z') ==> u == c
  {
    if 'a' <= c <= 'z' then (c as int - 32) as char else c
  }

  /** Lower-casing of one character, restricted to ASCII. */
  function LowerChar(c: char): (l: char)
    ensures !IsUpper(l)
    ensures !IsUpper(c) ==> l == c
  {
    if IsUpper(c) then (c as int + 32) as char else c
  }

  /** `s.toLowerCase()`, restricted to ASCII. */
  function ToLowerCase(s: string): (r: string)
    ensures |r| == |s|
    ensures forall i :: 0 <= i < |s| ==> r[i] == LowerChar(s[i])
    ensures NoneIn(r, IsUpper)
    ensures NoneIn(s, IsUpper) ==> r == s
  {
    seq(|s|, i requires 0 <= i < |s| => LowerChar(s[i]))
  }

  // ---------------------------------------------------------------------------
  // Counting, searching, repeating

  /** Number of occurrences of `c` in `s`. */
  function Count(s: string, c: char): nat {
    if s == [] then 0 else (if s[0] == c then 1 else 0) + Count(s[1..], c)
  }

  /** `t` occurs in `s` starting at index `i`. */
  predicate OccursAt(s: string, t: string, i: int) {
    0 <= i <= |s| - |t| && s[i..i + |t|] == t
  }

  /** `s.includes(t)` */
  predicate Contains(s: string, t: string) {
    exists i :: 0 <= i <= |s| - |t| && OccursAt(s, t, i)
  }

  /** `s.endsWith(t)` */
  predicate EndsWith(s: string, t: string) {
    |t| <= |s| && s[|s| - |t|..] == t
  }

  /** `c.repeat(n)` for a one-character string `c`. */
  function Repeat(c: char, n: nat): (r: string)
    ensures |r| == n && forall i :: 0 <= i < n ==> r[i] == c
  {
    seq(n, _ => c)
  }

  /** A run of one repeated character contains only strings made of that character. */
  lemma RepeatExcludes(c: char, n: nat, t: string)
    requires exists j :: 0 <= j < |t| && t[j] != c
    ensures !Contains(Repeat(c, n), t)
  {
    var j :| 0 <= j < |t| && t[j] != c;
    forall i | 0 <= i <= n - |t|
      ensures !OccursAt(Repeat(c, n), t, i)
    {
      assert Repeat(c, n)[i..i + |t|][j] != t[j];
    }
  }

  /** A string whose first character does not occur in `s` is not part of `s`. */
  lemma FirstCharAbsent(s: string, t: string)
    requires t != [] && t[0] !in s
    ensures !Contains(s, t)
  {
    forall i | 0 <= i <= |s| - |t|
      ensures !OccursAt(s, t, i)
    {
      assert s[i] in s;
    }
  }

  // ---------------------------------------------------------------------------
  // Concatenation and deletion

  /** The pieces written one after the other. */
  function Concat(ps: seq<string>): string {
    if ps == [] then [] else ps[0] + Concat(ps[1..])
  }

  /** `s` with every character of class `cls` deleted. */
  function Without(s: string, cls: char -> bool): (r: string)
    ensures NoneIn(r, cls)
  {
    if s == [] then []
    else if cls(s[0]) then Without(s[1..], cls)
    else [s[0]] + Without(s[1..], cls)
  }

  // ---------------------------------------------------------------------------
  // join and split

  /** `ps.join(sep)` */
  function Join(ps: seq<string>, sep: string): string {
    if ps == [] then []
    else if |ps| == 1 then ps[0]
    else ps[0] + sep + Join(ps[1..], sep)
  }

  /** `s.split(d)` for a one-character separator `d`: the pieces between the
      occurrences of `d`, empty ones included. */
  function SplitOn(s: string, d: char): (ps: seq<string>)
    ensures |ps| >= 1
    ensures forall k :: 0 <= k < |ps| ==> d !in ps[k]
    ensures forall k :: 0 <= k < |ps| ==> forall c :: c in ps[k] ==> c in s
  {
    if s == [] then [[]]
    else
      var rest := SplitOn(s[1..], d);
      if s[0] == d then [[]] + rest
      else [[s[0]] + rest[0]] + rest[1..]
  }

  /** `s.split(/[cls]+/)`: the pieces between maximal runs of characters of
      class `cls`. A leading (trailing) run yields an empty first (last) piece. */
  function SplitRuns(s: string, cls: char -> bool): (ps: seq<string>)
    ensures |ps| >= 1
    ensures forall k :: 0 <= k < |ps| ==> NoneIn(ps[k], cls)
  {
    if s == [] then [[]]
    else
      var rest := SplitRuns(s[1..], cls);
      if cls(s[0]) then
        (if |s| > 1 && cls(s[1]) then rest else [[]] + rest)
      else [[s[0]] + rest[0]] + rest[1..]
  }

  /** Splitting at every `d` has one piece more than there are `d`s. */
  lemma {:induction false} SplitOnCount(s: string, d: char)
    ensures |SplitOn(s, d)| == Count(s, d) + 1
  {
    if s != [] {
      SplitOnCount(s[1..], d);
    }
  }

  lemma {:induction false} SplitOnPrefix(p: string, d: char, t: string)
    requires d !in p
    ensures SplitOn(p + [d] + t, d) == [p] + SplitOn(t, d)
  {
    if p != [] {
      assert (p + [d] + t)[1..] == p[1..] + [d] + t;
      SplitOnPrefix(p[1..], d, t);
      assert [p[0]] + p[1..] == p;
    } else {
      assert p + [d] + t == [d] + t;
      assert ([d] + t)[1..] == t;
    }
  }

  lemma {:induction false} SplitOnFree(p: string, d: char)
    requires d !in p
    ensures SplitOn(p, d) == [p]
  {
    if p != [] {
      SplitOnFree(p[1..], d);
      assert [p[0]] + p[1..] == p;
    }
  }

  /** `split` undoes `join` when no piece contains the separator. */
  lemma {:induction false} SplitOnJoin(ps: seq<string>, d: char)
    requires |ps| >= 1
    requires forall k :: 0 <= k < |ps| ==> d !in ps[k]
    ensures SplitOn(Join(ps, [d]), d) == ps
  {
    if |ps| == 1 {
      SplitOnFree(ps[0], d);
    } else {
      SplitOnJoin(ps[1..], d);
      SplitOnPrefix(ps[0], d, Join(ps[1..], [d]));
      assert [ps[0]] + ps[1..] == ps;
    }
  }

  lemma {:induction false} SplitRunsFree(p: string, cls: char -> bool)
    requires p != [] && NoneIn(p, cls)
    ensures SplitRuns(p, cls) == [p]
  {
    if |p| > 1 {
      SplitRunsFree(p[1..], cls);
      assert [p[0]] + p[1..] == p;
    } else {
      assert !cls(p[0]);
      assert p[1..] == [] && SplitRuns(p[1..], cls) == [[]];
      assert [p[0]] == p;
      var rest := SplitRuns(p[1..], cls);
      assert rest[0] == [] && rest[1..] == [];
      assert [p[0]] + rest[0] == p;
      assert SplitRuns(p, cls) == [[p[0]] + rest[0]] + rest[1..];
    }
  }

  /** Every character of `s` is in the class `cls`; `s` may be empty. */
  predicate AllIn(s: string, cls: char -> bool) {
    forall i :: 0 <= i < |s| ==> cls(s[i])
  }

  /** The pieces with a separator string between each two:
      `ps[0] + seps[0] + ps[1] + … + ps[|ps| - 1]`. */
  function Interleave(ps: seq<string>, seps: seq<string>): string
    requires if ps == [] then seps == [] else |seps| == |ps| - 1
  {
    if ps == [] then []
    else if |ps| == 1 then ps[0]
    else ps[0] + seps[0] + Interleave(ps[1..], seps[1..])
  }

  lemma InterleaveHead(ps: seq<string>, seps: seq<string>)
    requires |ps| >= 1 && |seps| == |ps| - 1 && ps[0] != []
    ensures Interleave(ps, seps) != [] && Interleave(ps, seps)[0] == ps[0][0]
  {
  }

  /** A run of separators in front of a piece gives one empty piece. */
  lemma {:induction false} SplitRunsSepPrefix(sep: string, t: string, cls: char -> bool)
    requires sep != [] && AllIn(sep, cls)
    requires t != [] && !cls(t[0])
    ensures SplitRuns(sep + t, cls) == [[]] + SplitRuns(t, cls)
  {
    assert (sep + t)[1..] == sep[1..] + t;
    if |sep| > 1 {
      SplitRunsSepPrefix(sep[1..], t, cls);
    } else {
      assert sep[1..] + t == t;
    }
  }

  /** A separator-free piece in front joins the first piece of the rest. */
  lemma {:induction false} SplitRunsPiecePrefix(p: string, t: string, cls: char -> bool)
    requires NoneIn(p, cls)
    ensures SplitRuns(p + t, cls) == [p + SplitRuns(t, cls)[0]] + SplitRuns(t, cls)[1..]
  {
    var rt := SplitRuns(t, cls);
    if p == [] {
      assert p + t == t;
      assert p + rt[0] == rt[0];
      assert [rt[0]] + rt[1..] == rt;
    } else {
      assert (p + t)[1..] == p[1..] + t;
      SplitRunsPiecePrefix(p[1..], t, cls);
      assert [p[0]] + (p[1..] + rt[0]) == p + rt[0];
    }
  }

  /** A non-empty run of separators on its own splits into two empty pieces. */
  lemma {:induction false} SplitRunsAllSep(sep: string, cls: char -> bool)
    requires sep != [] && AllIn(sep, cls)
    ensures SplitRuns(sep, cls) == [[], []]
  {
    if |sep| > 1 {
      SplitRunsAllSep(sep[1..], cls);
    } else {
      assert sep[1..] == [];
    }
  }

  /** The last piece, followed by a possibly empty run of separators. */
  lemma SplitRunsLastPiece(p: string, trail: string, cls: char -> bool)
    requires NoneIn(p, cls) && AllIn(trail, cls)
    ensures SplitRuns(p + trail, cls) == [p] + (if trail == [] then [] else [[]])
  {
    SplitRunsPiecePrefix(p, trail, cls);
    if trail != [] {
      SplitRunsAllSep(trail, cls);
      assert p + SplitRuns(trail, cls)[0] == p;
    } else {
      assert p + SplitRuns(trail, cls)[0] == p;
    }
  }

  /** A piece followed by a run of separators and a text that starts with a
      piece: the piece, then the pieces of that text. */
  lemma SplitRunsPieceSep(p: string, sep: string, u: string, cls: char -> bool)
    requires NoneIn(p, cls) && sep != [] && AllIn(sep, cls)
    requires u != [] && !cls(u[0])
    ensures SplitRuns(p + (sep + u), cls) == [p] + SplitRuns(u, cls)
  {
    SplitRunsPiecePrefix(p, sep + u, cls);
    SplitRunsSepPrefix(sep, u, cls);
    var rs := SplitRuns(sep + u, cls);
    assert rs[0] == [] && rs[1..] == SplitRuns(u, cls);
    assert p + rs[0] == p;
  }

  lemma {:induction false} SplitRunsBody(ps: seq<string>, seps: seq<string>, trail: string, cls: char -> bool)
    requires |ps| >= 1 && |seps| == |ps| - 1
    requires forall k :: 0 <= k < |ps| ==> ps[k] != [] && NoneIn(ps[k], cls)
    requires forall k :: 0 <= k < |seps| ==> seps[k] != [] && AllIn(seps[k], cls)
    requires AllIn(trail, cls)
    ensures SplitRuns(Interleave(ps, seps) + trail, cls) == ps + (if trail == [] then [] else [[]])
  {
    if |ps| == 1 {
      SplitRunsLastPiece(ps[0], trail, cls);
      assert [ps[0]] == ps;
    } else {
      var u := Interleave(ps[1..], seps[1..]) + trail;
      SplitRunsBody(ps[1..], seps[1..], trail, cls);
      InterleaveHead(ps[1..], seps[1..]);
      assert u[0] == ps[1][0];
      assert Interleave(ps, seps) + trail == ps[0] + (seps[0] + u);
      SplitRunsPieceSep(ps[0], seps[0], u, cls);
      assert [ps[0]] + ps[1..] == ps;
    }
  }

  /** `s.split(/[cls]+/)` of a text laid out as separator-free, non-empty
      pieces with non-empty separator runs between them, optionally led and
      trailed by separators: exactly the pieces, plus an empty piece for a
      leading and one for a trailing run. */
  lemma SplitRunsLayout(lead: string, ps: seq<string>, seps: seq<string>, trail: string, cls: char -> bool)
    requires |ps| >= 1 && |seps| == |ps| - 1
    requires forall k :: 0 <= k < |ps| ==> ps[k] != [] && NoneIn(ps[k], cls)
    requires forall k :: 0 <= k < |seps| ==> seps[k] != [] && AllIn(seps[k], cls)
    requires AllIn(lead, cls) && AllIn(trail, cls)
    ensures SplitRuns(lead + Interleave(ps, seps) + trail, cls)
      == (if lead == [] then [] else [[]]) + ps + (if trail == [] then [] else [[]])
  {
    var body := Interleave(ps, seps) + trail;
    SplitRunsBody(ps, seps, trail, cls);
    InterleaveHead(ps, seps);
    assert lead + Interleave(ps, seps) + trail == lead + body;
    if lead != [] {
      SplitRunsSepPrefix(lead, body, cls);
    } else {
      assert lead + body == body;
    }
  }

  /** `n` copies of the separator `sep`. */
  function Copies(n: nat, sep: string): (r: seq<string>)
    ensures |r| == n && forall k :: 0 <= k < n ==> r[k] == sep
  {
    seq(n, _ => sep)
  }

  /** `ps.join(sep)` is the interleaving of the pieces with copies of `sep`. */
  lemma {:induction false} JoinAsInterleave(ps: seq<string>, sep: string)
    ensures Join(ps, sep) == Interleave(ps, Copies(if ps == [] then 0 else |ps| - 1, sep))
    ensures Join(ps, sep) == [] + Interleave(ps, Copies(if ps == [] then 0 else |ps| - 1, sep)) + []
  {
    if |ps| > 1 {
      JoinAsInterleave(ps[1..], sep);
      assert Copies(|ps| - 1, sep)[1..] == Copies(|ps| - 2, sep);
    }
  }

  /** Splitting on separator runs keeps every other character, in order. */
  lemma {:induction false} SplitRunsContent(s: string, cls: char -> bool)
    ensures Concat(SplitRuns(s, cls)) == Without(s, cls)
  {
    if s != [] {
      SplitRunsContent(s[1..], cls);
      var rest := SplitRuns(s[1..], cls);
      if !cls(s[0]) {
        assert Concat(rest) == rest[0] + Concat(rest[1..]);
        assert ([[s[0]] + rest[0]] + rest[1..])[1..] == rest[1..];
      } else if !(|s| > 1 && cls(s[1])) {
        assert ([[]] + rest)[1..] == rest;
      }
    }
  }

  // ---------------------------------------------------------------------------
  // trim

  function TrimStart(s: string): (r: string)
    ensures r != [] ==> !IsSpace(r[0])
    ensures |r| <= |s| && r == s[|s| - |r|..]
  {
    if s != [] && IsSpace(s[0]) then TrimStart(s[1..]) else s
  }

  function TrimEnd(s: string): (r: string)
    ensures r != [] ==> !IsSpace(r[|r| - 1])
    ensures |r| <= |s| && r == s[..|r|]
  {
    if s != [] && IsSpace(s[|s| - 1]) then TrimEnd(s[..|s| - 1]) else s
  }

  /** `s.trim()` */
  function Trim(s: string): string {
    TrimEnd(TrimStart(s))
  }

  lemma TrimEndKeepsStart(s: string)
    requires s != [] && !IsSpace(s[0])
    ensures TrimEnd(s) != [] && TrimEnd(s)[0] == s[0]
  {
  }

  /** A trimmed string neither starts nor ends with white space. */
  lemma TrimmedEnds(s: string)
    ensures Trim(s) != [] ==> !IsSpace(Trim(s)[0]) && !IsSpace(Trim(s)[|Trim(s)| - 1])
  {
    var a := TrimStart(s);
    if a != [] {
      TrimEndKeepsStart(a);
    }
  }

  lemma TrimFixed(s: string)
    requires s == [] || (!IsSpace(s[0]) && !IsSpace(s[|s| - 1]))
    ensures Trim(s) == s
  {
  }

  /** Trimming twice trims nothing more. */
  lemma TrimIdempotent(s: string)
    ensures Trim(Trim(s)) == Trim(s)
  {
    TrimmedEnds(s);
    TrimFixed(Trim(s));
  }

  /** A string without white space is its own trim. */
  lemma TrimSpaceless(s: string)
    requires NoneIn(s, IsSpace)
    ensures Trim(s) == s
  {
    if s != [] {
      assert !IsSpace(s[0]) && !IsSpace(s[|s| - 1]);
    }
  }
}
