/** The name escaping of servedb.py (`transtab`, applied with `str.translate`) and the body of
    a `.strm` file: `{origin}/{escaped name}?pickcode={pickcode}`. The four characters that
    would end or split the path part of a URL (`#`, `%`, `/`, `?`) become `%xx` with two
    lower-case hex digits; every other character is kept. */
module StrmLinks {

  /** `transtab` applied to one character. */
  function Code(c: char): (r: string)
    ensures |r| == 1 || |r| == 3
    ensures |r| == 1 <==> c !in "#%/?"
    ensures |r| == 1 ==> r == [c]
  {
    if c == '#' then "%23"
    else if c == '%' then "%25"
    else if c == '/' then "%2f"
    else if c == '?' then "%3f"
    else [c]
  }

  /** `translate(name, transtab)`. */
  function Escape(s: string): string
    decreases |s|
  {
    if s == [] then "" else Code(s[0]) + Escape(s[1..])
  }

  predicate IsHex(c: char)
  {
    '0' <= c <= '9' || 'a' <= c <= 'f' || 'A' <= c <= 'F'
  }

  function HexValue(c: char): (n: nat)
    requires IsHex(c)
    ensures n < 16
  {
    if '0' <= c <= '9' then (c - '0') as nat
    else if 'a' <= c <= 'f' then (c - 'a') as nat + 10
    else (c - 'A') as nat + 10
  }

  /** Percent-decoding as a URL reader does it: `%` and two hex digits stand for the
      character with that code; anything else stands for itself. */
  function Unquote(s: string): string
    decreases |s|
  {
    if s == [] then ""
    else if |s| >= 3 && s[0] == '%' && IsHex(s[1]) && IsHex(s[2]) then
      [(HexValue(s[1]) * 16 + HexValue(s[2])) as char] + Unquote(s[3..])
    else [s[0]] + Unquote(s[1..])
  }

  /** The body of the `.strm` file for a file named `name` (the UTF-8 encoding of this
      string is not part of this model). */
  function StrmData(origin: string, name: string, pickcode: string): string
  {
    (origin + "/") + Escape(name) + "?" + ("pickcode=" + pickcode)
  }

  // ---------------------------------------------------------------------------

  lemma CodeSafe(c: char)
    ensures '#' !in Code(c) && '/' !in Code(c) && '?' !in Code(c)
  {
  }

  /** The escaped name has no `#`, `/` or `?`: it stays one path segment with no query or
      fragment. */
  lemma {:induction false} EscapeSafe(s: string)
    ensures '#' !in Escape(s) && '/' !in Escape(s) && '?' !in Escape(s)
    decreases |s|
  {
    if s != [] {
      CodeSafe(s[0]);
      EscapeSafe(s[1..]);
    }
  }

  /** A name with none of the four characters is kept as it is, and only such a name. */
  lemma {:induction false} EscapeIdentity(s: string)
    ensures Escape(s) == s <==> forall i :: 0 <= i < |s| ==> s[i] !in "#%/?"
    decreases |s|
  {
    if s != [] {
      EscapeIdentity(s[1..]);
      EscapeLength(s[1..]);
      if s[0] in "#%/?" {
        assert |Escape(s)| > |s|;
      } else {
        assert Escape(s) == [s[0]] + Escape(s[1..]);
        assert s == [s[0]] + s[1..];
        if Escape(s) == s {
          assert Escape(s[1..]) == s[1..];
        }
        if forall i :: 0 <= i < |s| ==> s[i] !in "#%/?" {
          assert forall i :: 0 <= i < |s[1..]| ==> s[1..][i] == s[i + 1];
        }
        if exists i :: 0 <= i < |s[1..]| && s[1..][i] in "#%/?" {
          var i :| 0 <= i < |s[1..]| && s[1..][i] in "#%/?";
          assert s[i + 1] in "#%/?";
        }
      }
    }
  }

  lemma {:induction false} EscapeLength(s: string)
    ensures |Escape(s)| >= |s|
    decreases |s|
  {
    if s != [] {
      EscapeLength(s[1..]);
    }
  }

  lemma UnquoteCode(c: char, rest: string)
    ensures Unquote(Code(c) + rest) == [c] + Unquote(rest)
  {
    var t := Code(c) + rest;
    if c in "#%/?" {
      assert t[3..] == rest;
    } else {
      assert t[1..] == rest;
    }
  }

  /** Because `%` itself is escaped, percent-decoding gives the name back. */
  lemma {:induction false} UnquoteEscape(s: string)
    ensures Unquote(Escape(s)) == s
    decreases |s|
  {
    if s != [] {
      UnquoteCode(s[0], Escape(s[1..]));
      UnquoteEscape(s[1..]);
      assert s == [s[0]] + s[1..];
    }
  }

  /** A `.strm` body read as a URL: after `origin/` the path runs up to the first `?`,
      it is the escaped name, it decodes to the name, and the query that follows is
      `pickcode=` and the pick code. */
  lemma StrmDataParses(origin: string, name: string, pickcode: string)
    ensures var link := StrmData(origin, name, pickcode);
            var e := Escape(name);
            var start := |origin| + 1;
            && link[..start] == origin + "/"
            && (forall i :: start <= i < start + |e| ==> link[i] != '?' && link[i] != '#')
            && link[start + |e|] == '?'
            && Unquote(link[start..start + |e|]) == name
            && link[start + |e| + 1..] == "pickcode=" + pickcode
  {
    EscapeSafe(name);
    UnquoteEscape(name);
    Layout(origin + "/", Escape(name), "pickcode=" + pickcode);
  }

  lemma Layout(a: string, e: string, b: string)
    requires '?' !in e && '#' !in e
    ensures var link := a + e + "?" + b;
            && link[..|a|] == a
            && (forall i :: |a| <= i < |a| + |e| ==> link[i] != '?' && link[i] != '#')
            && link[|a|..|a| + |e|] == e
            && link[|a| + |e|] == '?'
            && link[|a| + |e| + 1..] == b
  {
    var link := a + e + "?" + b;
    forall i | |a| <= i < |a| + |e|
      ensures link[i] != '?' && link[i] != '#'
    {
      assert link[i] == e[i - |a|];
    }
  }
}
