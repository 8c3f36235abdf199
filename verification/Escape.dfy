/** Escaping of the characters FAT does not allow in names. */
module Escape {

  import opened Options

  predicate Forbidden(c: char) { c == '"' || c == '*' || c == ':' || c == '<' || c == '>' || c == '?' || c == '|' }

  /** The two letters that stand for a forbidden character. */
  function Letters(c: char): (r: string)
    requires Forbidden(c)
    ensures |r| == 2 && !Forbidden(r[0]) && !Forbidden(r[1]) && r[0] != '&' && r[1] != '&' && r[0] != '\0'
    ensures r[1] != '\0'
  {
    if c == '"' then "qt" else if c == '*' then "st" else if c == ':' then "cl" else if c == '<' then "lt"
    else if c == '>' then "gt" else if c == '?' then "qm" else "vb"
  }

  /** The letters of each. */
  lemma {:induction false} SequencesAre()
    ensures Sequence('"') == "&qt;" && Sequence('*') == "&st;" && Sequence(':') == "&cl;" && Sequence('<') == "&lt;"
    ensures Sequence('>') == "&gt;" && Sequence('?') == "&qm;" && Sequence('|') == "&vb;"
    ensures forall c :: Forbidden(c) <==> c in "\"*:<>?|"
  {
  }

  function Sequence(c: char): (r: string)
    requires Forbidden(c)
    ensures |r| == 4
  {
    "&" + Letters(c) + ";"
  }

  function Escaped(s: string): (r: string) {
    if s == "" then "" else if Forbidden(s[0]) then Sequence(s[0]) + Escaped(s[1..]) else [s[0]] + Escaped(s[1..])
  }

  /** The character whose letters and semicolon stand at the front of s. */
  function Code(s: string): (r: Option<char>)
    ensures r.Some? ==> |s| >= 3 && s[2] == ';' && Forbidden(r.value) && s[..2] == Letters(r.value)
    ensures r.None? ==> forall c :: Forbidden(c) ==> !(|s| >= 3 && s[2] == ';' && s[..2] == Letters(c))
  {
    if |s| < 3 || s[2] != ';' then None
    else if s[..2] == "qt" then Some('"')
    else if s[..2] == "st" then Some('*')
    else if s[..2] == "cl" then Some(':')
    else if s[..2] == "lt" then Some('<')
    else if s[..2] == "gt" then Some('>')
    else if s[..2] == "qm" then Some('?')
    else if s[..2] == "vb" then Some('|')
    else None
  }

  /** An escape sequence starts s. */
  predicate Starts(s: string) { s != "" && s[0] == '&' && Code(s[1..]).Some? }

  function Unescaped(s: string): (r: string) {
    if s == "" then ""
    else if Starts(s) then [Code(s[1..]).value] + Unescaped(s[4..])
    else [s[0]] + Unescaped(s[1..])
  }

  /** No escape sequence anywhere in s. */
  predicate Clean(s: string) { forall k :: 0 <= k < |s| ==> !Starts(s[k..]) }

  lemma {:induction false} EscapedAllowed(s: string)
    ensures forall c :: c in Escaped(s) ==> !Forbidden(c)
  {
    if s != "" {
      EscapedAllowed(s[1..]);
    }
  }

  /** The first k characters stay as they are when none of them is forbidden. */
  lemma {:induction false} EscapedPrefix(s: string, k: nat)
    requires k <= |s| && forall i :: 0 <= i < k ==> !Forbidden(s[i])
    ensures |Escaped(s)| >= k && Escaped(s)[..k] == s[..k] && Escaped(s)[k..] == Escaped(s[k..])
  {
    if k > 0 {
      EscapedPrefix(s[1..], k - 1);
      assert s[1..][k - 1..] == s[k..];
      assert s[..k] == [s[0]] + s[1..][..k - 1];
    }
  }

  /** Escaping neither makes nor breaks a code at the front. */
  lemma {:induction false} CodeAgrees(s: string)
    ensures Code(Escaped(s)) == Code(s)
    ensures Code(s).Some? ==> |Escaped(s)| >= 3 && Escaped(s)[3..] == Escaped(s[3..])
  {
    if Code(s).Some? {
      assert s[..2][0] == s[0] && s[..2][1] == s[1];
      EscapedPrefix(s, 3);
      FrontDecides(s, Escaped(s));
    } else if Code(Escaped(s)).Some? {
      var e := Escaped(s);
      assert e[..2][0] == e[0] && e[..2][1] == e[1];
      PlainFront(s);
      EscapedPrefix(s, 3);
      FrontDecides(s, e);
    }
  }

  lemma {:induction false} FrontDecides(s: string, t: string)
    requires |s| >= 3 && |t| >= 3 && s[..3] == t[..3]
    ensures Code(s) == Code(t)
  {
    assert s[2] == s[..3][2] && t[2] == t[..3][2];
    assert s[..2] == s[..3][..2] && t[..2] == t[..3][..2];
  }

  /** A front without ampersands was not escaped. */
  lemma {:induction false} PlainFront(s: string)
    requires |Escaped(s)| >= 3 && Escaped(s)[0] != '&' && Escaped(s)[1] != '&' && Escaped(s)[2] != '&'
    ensures |s| >= 3 && !Forbidden(s[0]) && !Forbidden(s[1]) && !Forbidden(s[2])
  {
    EscapedPrefix(s, 1);
    assert Escaped(s)[1..][0] == Escaped(s)[1];
    EscapedPrefix(s, 2);
    assert Escaped(s)[2..][0] == Escaped(s)[2];
  }

  lemma {:induction false} SequenceStarts(c: char, rest: string)
    requires Forbidden(c)
    ensures var t := Sequence(c) + rest;
            Starts(t) && Code(t[1..]).value == c && t[4..] == rest
  {
    var t := Sequence(c) + rest;
    assert t[1..] == Letters(c) + ";" + rest;
    assert t[1..][..2] == Letters(c) && t[1..][2] == ';';
    LettersDiffer(c, Code(t[1..]).value);
  }

  lemma {:induction false} LettersDiffer(c: char, d: char)
    requires Forbidden(c) && Forbidden(d)
    ensures Letters(c) == Letters(d) ==> c == d
  {
    var p, q := Letters(c), Letters(d);
    assert p == q ==> p[0] == q[0] && p[1] == q[1];
  }

  /** Escaping makes no difference to what unescaping finds. */
  lemma {:induction false} EscapeIsInvisible(s: string)
    ensures Unescaped(Escaped(s)) == Unescaped(s)
    decreases |s|
  {
    if s != "" {
      var rest := Escaped(s[1..]);
      if Forbidden(s[0]) {
        SequenceStarts(s[0], rest);
        EscapeIsInvisible(s[1..]);
      } else {
        var e := Escaped(s);
        assert e == [s[0]] + rest && e[1..] == rest;
        CodeAgrees(s[1..]);
        if Starts(s) {
          assert e[4..] == rest[3..];
          assert s[1..][3..] == s[4..];
          EscapeIsInvisible(s[4..]);
        } else {
          EscapeIsInvisible(s[1..]);
        }
      }
    }
  }

  /** Unescaping shortens exactly the strings that hold a sequence, and leaves the others alone. */
  lemma {:induction false} UnescapedExactly(s: string)
    ensures |Unescaped(s)| <= |s|
    ensures Clean(s) ==> Unescaped(s) == s
    ensures !Clean(s) ==> |Unescaped(s)| < |s|
    decreases |s|
  {
    if s != "" {
      assert s[0..] == s;
      if Starts(s) {
        UnescapedExactly(s[4..]);
      } else {
        UnescapedExactly(s[1..]);
        CleanTail(s);
      }
    }
  }

  lemma {:induction false} CleanTail(s: string)
    requires s != "" && !Starts(s)
    ensures Clean(s) <==> Clean(s[1..])
  {
    if Clean(s[1..]) {
      forall k | 0 <= k < |s|
        ensures !Starts(s[k..])
      {
        if k == 0 {
          assert s[0..] == s;
        } else {
          assert s[1..][k - 1..] == s[k..];
        }
      }
    }
    if Clean(s) {
      forall k | 0 <= k < |s| - 1
        ensures !Starts(s[1..][k..])
      {
        assert s[1..][k..] == s[k + 1..];
      }
    }
  }

  /** The round trip returns the string exactly when it holds no escape sequence of its own. */
  lemma {:induction false} RoundTripExactly(s: string)
    ensures Unescaped(Escaped(s)) == s <==> Clean(s)
  {
    EscapeIsInvisible(s);
    UnescapedExactly(s);
  }

  /** On such strings escaping is injective. */
  lemma {:induction false} EscapeInjective(s: string, t: string)
    requires Clean(s) && Clean(t) && Escaped(s) == Escaped(t)
    ensures s == t
  {
    RoundTripExactly(s);
    RoundTripExactly(t);
  }

  /** The C string in a buffer has n characters. */
  predicate Terminated(a: seq<char>, n: nat) { n < |a| && a[n] == '\0' && forall k :: 0 <= k < n ==> a[k] != '\0' }

  lemma {:induction false} EscapedStep(s: string, k: nat)
    requires k < |s|
    ensures Escaped(s[..k + 1]) == Escaped(s[..k]) + if Forbidden(s[k]) then Sequence(s[k]) else [s[k]]
    ensures |Escaped(s[..k + 1])| <= |Escaped(s)|
  {
    EscapedJoin(s[..k], s[k..k + 1]);
    assert s[..k + 1] == s[..k] + s[k..k + 1];
    assert Escaped(s[k..k + 1]) == (if Forbidden(s[k])
      then Sequence(s[k]) else [s[k]]) + Escaped("") by { assert s[k..k + 1][1..] == ""; }
    EscapedJoin(s[..k + 1], s[k + 1..]);
    assert s == s[..k + 1] + s[k + 1..];
  }

  lemma {:induction false} EscapedJoin(s: string, t: string)
    ensures Escaped(s + t) == Escaped(s) + Escaped(t)
  {
    if s == "" {
      assert s + t == t;
    } else {
      EscapedJoin(s[1..], t);
      assert (s + t)[1..] == s[1..] + t;
      JoinAssociates(if Forbidden(s[0]) then Sequence(s[0]) else [s[0]], Escaped(s[1..]), Escaped(t));
    }
  }

  lemma {:induction false} JoinAssociates(h: string, a: string, b: string)
    ensures h + (a + b) == (h + a) + b
  {
  }

  method Put(a: array<char>, at: nat, data: string)
    requires at + |data| <= a.Length
    modifies a
    ensures a[..at] == old(a[..at]) && a[at..at + |data|] == data
  {
    forall k | at <= k < at + |data| {
      a[k] := data[k - at];
    }
  }

  /** FAT_Escape. */
  method FatEscape(dst: array<char>, src: string)
    requires |Escaped(src)| < dst.Length
    modifies dst
    ensures dst[..|Escaped(src)|] == Escaped(src) && dst[|Escaped(src)|] == '\0'
  {
    var i, at := 0, 0;
    assert src[..0] == "";
    while i < |src|
      invariant i <= |src| && at == |Escaped(src[..i])| < dst.Length && dst[..at] == Escaped(src[..i])
    {
      EscapedStep(src, i);
      if Forbidden(src[i]) {
        Put(dst, at, Sequence(src[i]) + "\0");
        assert dst[..at + 4] == dst[..at] + dst[at..at + 5][..4];
        at := at + 4;
      } else {
        Put(dst, at, [src[i]]);
        assert dst[..at + 1] == dst[..at] + dst[at..at + 1];
        at := at + 1;
      }
      i := i + 1;
    }
    assert src[..|src|] == src;
    dst[at] := '\0';
  }

  /** What is left to unescape, and what is done. */
  predicate Halfway(was: string, now: seq<char>, src: nat, dst: nat) {
    && dst <= src <= |was| < |now|
    && now[src..|was|] == was[src..]
    && Unescaped(was) == now[..dst] + Unescaped(was[src..])
  }

  lemma {:induction false} HalfwayStep(was: string, now: seq<char>, src: nat, dst: nat)
    requires Halfway(was, now, src, dst) && src < |was|
    ensures var rest := was[src..];
            var c, next := if Starts(rest) then Code(rest[1..]).value else rest[0],
              if Starts(rest) then src + 4 else src + 1;
            rest[0] == now[src] && next <= |was| && Halfway(was, now[dst := c], next, dst + 1)
  {
    var rest := was[src..];
    assert now[src] == now[src..|was|][0];
    var c, next := if Starts(rest) then Code(rest[1..]).value else rest[0], if Starts(rest) then src + 4 else src + 1;
    assert was[next..] == rest[next - src..];
    assert now[dst := c][..dst + 1] == now[..dst] + [c];
    assert now[dst := c][next..|was|] == now[src..|was|][next - src..];
  }

  /** FAT_Unescape: in place, returning the length. */
  method FatUnescape(path: array<char>, ghost n: nat) returns (len: nat)
    requires Terminated(path[..], n)
    modifies path
    ensures len == |Unescaped(old(path[..n]))| <= n && path[..len] == Unescaped(old(path[..n])) && path[len] == '\0'
  {
    ghost var was := path[..n];
    var src, dst := 0, 0;
    assert was[0..] == was;
    while path[src] != '\0'
      invariant Halfway(was, path[..], src, dst) && path[n] == '\0' && n == |was| && dst <= n
      invariant forall k :: src <= k < n ==> path[k] != '\0'
      decreases n - src
    {
      HalfwayStep(was, path[..], src, dst);
      var c := path[src];
      assert c == path[..][src] == was[src..][0];
      var code := if c == '&' then CodeAt(path, src + 1, n) else None;
      src := src + 1;
      if code.Some? {
        c, src := code.value, src + 3;
      }
      path[dst] := c;
      dst := dst + 1;
    }
    path[dst] := '\0';
    len := dst;
  }

  /** The strncmp cascade: it never looks past the terminator. */
  function CodeAt(a: array<char>, i: nat, ghost n: nat): (r: Option<char>)
    requires i <= n < a.Length && a[n] == '\0' && forall k :: i <= k < n ==> a[k] != '\0'
    reads a
    ensures r == Code(a[i..n])
  {
    if a[i] == '\0' then None
    else if a[i + 1] == '\0' then None
    else if a[i + 2] != ';' then None
    else Code(a[i..i + 3])
  }
}
