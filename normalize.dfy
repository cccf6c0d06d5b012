/** `normalize_attr` and `normalize_path` of updatedb.py: turning one raw listing entry into
    the row the database stores, and classifying a user-given directory reference. */
module Normalize {
  import opened Common

  /** A raw value of one key as the JSON listing holds it: a number, a string, a boolean
      or `null`. */
  datatype Scalar = Num(n: int) | Text(t: string) | Flag(b: bool) | Null

  /** The keys of one raw listing entry that `normalize_attr` reads; `None` is a missing key.
      The keys it passes to `int()` or `bool()` hold any scalar; `pc`, `n`, `s` and `sha`,
      which it copies, hold the types the listing gives them. */
  datatype RawInfo = RawInfo(
    fid: Option<Scalar>, cid: Option<Scalar>, pid: Option<Scalar>,
    pc: Option<string>, n: Option<string>,
    s: Option<int>, sha: Option<string>, u: Option<Scalar>,
    tp: Option<Scalar>, te: Option<Scalar>)

  /** One database row. */
  datatype Attr = Attr(
    id: int, parentId: int, pickcode: string, name: string, size: int, sha1: string,
    isDir: bool, isImage: bool, ctime: int, mtime: int)

  /** Python's truth value of a scalar: `bool(x)`. */
  predicate Truthy(v: Scalar)
  {
    match v
    case Num(n) => n != 0
    case Text(t) => t != []
    case Flag(b) => b
    case Null => false
  }

  /** The ASCII characters `int()` strips from both ends of a string. */
  predicate IsSpace(c: char)
  {
    c == ' ' || 9 <= c as int <= 13 || 28 <= c as int <= 31
  }

  /** `s` without its leading whitespace. */
  function StripStart(s: string): (r: string)
    ensures |r| <= |s| && r == s[|s| - |r|..]
    decreases |s|
  {
    if s != [] && IsSpace(s[0]) then StripStart(s[1..]) else s
  }

  /** `s` without its trailing whitespace. */
  function StripEnd(s: string): (r: string)
    ensures |r| <= |s| && r == s[..|r|]
    decreases |s|
  {
    if s != [] && IsSpace(s[|s| - 1]) then StripEnd(s[..|s| - 1]) else s
  }

  /** `int(t)` for a string: whitespace around an optional sign and at least one digit;
      `None` is the `ValueError`. */
  function ParseInt(t: string): (r: Option<int>)
  {
    ParseStripped(StripEnd(StripStart(t)))
  }

  /** The sign and digits that remain once the whitespace is stripped. */
  function ParseStripped(u: string): (r: Option<int>)
  {
    if u != [] && (u[0] == '+' || u[0] == '-') && IsDecimal(u[1..]) then
      var v: int := DecimalValue(u[1..]);
      Some(if u[0] == '-' then -v else v)
    else if IsDecimal(u) then Some(DecimalValue(u))
    else None
  }

  /** `int(x)` for a scalar: a number as it is, a boolean as 0 or 1, a string parsed;
      `None` is the `ValueError` of a malformed string or the `TypeError` of `null`. */
  function PyInt(v: Scalar): (r: Option<int>)
  {
    match v
    case Num(n) => Some(n)
    case Text(t) => ParseInt(t)
    case Flag(b) => Some(if b then 1 else 0)
    case Null => None
  }

  /** `int(info.get(key, 0))`: a missing key gives 0. */
  function IntOrZero(x: Option<Scalar>): (r: Option<int>)
    ensures x.None? ==> r == Some(0)
    ensures x.Some? ==> r == PyInt(x.value)
  {
    if x.None? then Some(0) else PyInt(x.value)
  }

  /** Python's `x or default` for an optional number: a missing or zero value gives 0. */
  function OrZero(x: Option<int>): (r: int)
    ensures x.Some? && x.value != 0 ==> r == x.value
    ensures x.None? || x.value == 0 ==> r == 0
  {
    if x.Some? then x.value else 0
  }

  /** Python's `x or ""` for an optional string: a missing or empty value gives "". */
  function OrEmpty(x: Option<string>): (r: string)
    ensures x.Some? ==> r == x.value
    ensures x.None? ==> r == ""
  {
    if x.Some? then x.value else ""
  }

  /** The keys whose absence raises `KeyError`: `cid` and `pid` for a directory (an entry
      without `fid`), `fid` and `cid` for a file, and `pc` and `n` for both. */
  predicate HasRequiredKeys(info: RawInfo)
  {
    && info.cid.Some? && info.pc.Some? && info.n.Some?
    && (info.fid.None? ==> info.pid.Some?)
  }

  /** Every `int()` that `normalize_attr` applies succeeds: on `cid` and `pid` for a
      directory, on `fid` and `cid` for a file, and on `tp` and `te` when present. */
  predicate Converts(info: RawInfo)
    requires HasRequiredKeys(info)
  {
    && (info.fid.None? ==> PyInt(info.cid.value).Some? && PyInt(info.pid.value).Some?)
    && (info.fid.Some? ==> PyInt(info.fid.value).Some? && PyInt(info.cid.value).Some?)
    && IntOrZero(info.tp).Some? && IntOrZero(info.te).Some?
  }

  /** `None` models what `normalize_attr` raises: the `KeyError` of a missing key, or the
      `ValueError` or `TypeError` of an `int()` that fails. */
  function NormalizeAttr(info: RawInfo): (r: Option<Attr>)
    ensures r.Some? <==> HasRequiredKeys(info) && Converts(info)
    ensures r.Some? ==> (r.value.isDir <==> info.fid.None?)
    ensures r.Some? && info.fid.None? ==>
              PyInt(info.cid.value) == Some(r.value.id) && PyInt(info.pid.value) == Some(r.value.parentId)
    ensures r.Some? && info.fid.Some? ==>
              PyInt(info.fid.value) == Some(r.value.id) && PyInt(info.cid.value) == Some(r.value.parentId)
    ensures r.Some? ==> (r.value.isImage <==> info.fid.Some? && info.u.Some? && Truthy(info.u.value))
    ensures r.Some? ==> r.value.pickcode == info.pc.value && r.value.name == info.n.value
    ensures r.Some? ==> r.value.size == OrZero(info.s) && r.value.sha1 == OrEmpty(info.sha)
    ensures r.Some? ==> IntOrZero(info.tp) == Some(r.value.ctime) && IntOrZero(info.te) == Some(r.value.mtime)
  {
    var isDir := info.fid.None?;
    if info.cid.None? || (isDir && info.pid.None?) then None
    else
      var id := PyInt(if isDir then info.cid.value else info.fid.value);
      var parent := PyInt(if isDir then info.pid.value else info.cid.value);
      if id.None? || parent.None? || info.pc.None? || info.n.None? then None
      else
        var ctime := IntOrZero(info.tp);
        var mtime := IntOrZero(info.te);
        if ctime.None? || mtime.None? then None
        else
          Some(Attr(id.value, parent.value, info.pc.value, info.n.value, OrZero(info.s), OrEmpty(info.sha),
                    isDir, !isDir && info.u.Some? && Truthy(info.u.value), ctime.value, mtime.value))
  }

  /** A directory never counts as an image, whatever its `u` flag says. */
  lemma DirectoryIsNeverImage(info: RawInfo)
    requires info.fid.None? && HasRequiredKeys(info) && Converts(info)
    ensures NormalizeAttr(info).Some? && !NormalizeAttr(info).value.isImage
    ensures Some(NormalizeAttr(info).value.parentId) == PyInt(info.pid.value)
  {
  }

  // ---------------------------------------------------------------------------
  // Decimal strings

  predicate IsDigit(c: char) { '0' <= c <= '9' }

  /** `str.isdecimal()` on ASCII input: not empty and only digits. */
  predicate IsDecimal(s: string)
  {
    |s| > 0 && forall i :: 0 <= i < |s| ==> IsDigit(s[i])
  }

  /** `int(s)` for a decimal string. */
  function DecimalValue(s: string): (v: nat)
    requires forall i :: 0 <= i < |s| ==> IsDigit(s[i])
    decreases |s|
  {
    if s == [] then 0
    else
      assert IsDigit(s[|s| - 1]);
      DecimalValue(s[..|s| - 1]) * 10 + (s[|s| - 1] as int - '0' as int)
  }

  /** The decimal spelling of `n`, without leading zeros. */
  function DecimalString(n: nat): (s: string)
    ensures IsDecimal(s)
    ensures |s| > 1 ==> s[0] != '0'
    decreases n
  {
    var d := ['0' + (n % 10) as char];
    if n < 10 then d else DecimalString(n / 10) + d
  }

  /** Parsing the spelling gives the number back. */
  lemma {:induction false} DecimalRoundTrip(n: nat)
    ensures DecimalValue(DecimalString(n)) == n
    decreases n
  {
    var s := DecimalString(n);
    if n >= 10 {
      DecimalRoundTrip(n / 10);
      assert s[..|s| - 1] == DecimalString(n / 10);
    }
  }

  // ---------------------------------------------------------------------------
  // int() of a string

  /** The decimal spelling of an integer, with `-` in front when it is negative. */
  function Spelling(n: int): (s: string)
    ensures |s| > 0 && IsDigit(s[|s| - 1])
    ensures n < 0 ==> s[0] == '-' && IsDecimal(s[1..])
    ensures n >= 0 ==> IsDecimal(s)
  {
    if n < 0 then "-" + DecimalString(-n) else DecimalString(n)
  }

  lemma {:induction false} StripStartPadding(pre: string, x: string)
    requires forall i :: 0 <= i < |pre| ==> IsSpace(pre[i])
    requires x != [] && !IsSpace(x[0])
    ensures StripStart(pre + x) == x
    decreases |pre|
  {
    if pre != [] {
      var s := pre + x;
      assert s[0] == pre[0] && s[1..] == pre[1..] + x;
      assert StripStart(s) == StripStart(s[1..]);
      StripStartPadding(pre[1..], x);
    } else {
      assert pre + x == x;
    }
  }

  lemma {:induction false} StripEndPadding(x: string, post: string)
    requires forall i :: 0 <= i < |post| ==> IsSpace(post[i])
    requires x != [] && !IsSpace(x[|x| - 1])
    ensures StripEnd(x + post) == x
    decreases |post|
  {
    if post != [] {
      var s := x + post;
      assert s[|s| - 1] == post[|post| - 1] && s[..|s| - 1] == x + post[..|post| - 1];
      assert StripEnd(s) == StripEnd(s[..|s| - 1]);
      StripEndPadding(x, post[..|post| - 1]);
    } else {
      assert x + post == x;
    }
  }

  /** `int()` reads back the spelling of any integer, whatever whitespace surrounds it. */
  lemma IntRoundTrip(n: int, pre: string, post: string)
    requires forall i :: 0 <= i < |pre| ==> IsSpace(pre[i])
    requires forall i :: 0 <= i < |post| ==> IsSpace(post[i])
    ensures PyInt(Text(pre + Spelling(n) + post)) == Some(n)
  {
    var s := Spelling(n);
    SpellingEdges(n);
    var sp := s + post;
    assert sp[0] == s[0];
    StripStartPadding(pre, sp);
    assert pre + s + post == pre + sp;
    StripEndPadding(s, post);
    ParseSpelling(n);
    assert ParseInt(pre + s + post) == ParseStripped(s);
  }

  lemma SpellingEdges(n: int)
    ensures var s := Spelling(n); !IsSpace(s[0]) && !IsSpace(s[|s| - 1])
  {
    var s := Spelling(n);
    if n >= 0 { assert IsDigit(s[0]); }
  }

  lemma ParseSpelling(n: int)
    ensures ParseStripped(Spelling(n)) == Some(n)
  {
    var s := Spelling(n);
    if n < 0 {
      assert s[1..] == DecimalString(-n);
      DecimalRoundTrip(-n);
    } else {
      DecimalRoundTrip(n);
    }
  }

  /** A string without a digit never converts: `int()` raises `ValueError`. */
  lemma NoDigitNoInt(t: string)
    requires forall i :: 0 <= i < |t| ==> !IsDigit(t[i])
    ensures ParseInt(t).None?
  {
    var a := StripStart(t);
    var u := StripEnd(a);
    if u != [] {
      var c := u[|u| - 1];
      assert c == a[|u| - 1] == t[|t| - |a| + |u| - 1];
      assert !IsDecimal(u) by { assert !IsDigit(u[|u| - 1]); }
      if |u| > 1 {
        assert !IsDecimal(u[1..]) by { assert u[1..][|u| - 2] == c; }
      }
    }
  }

  /** A file entry as the listing may give it, with ids and times as strings:
      `"fid": "12"`, `"cid": "3"`, `"u": "0"`, `"te": " 170\n"` and no `tp`. */
  function StringEntry(): RawInfo
  {
    RawInfo(Some(Text("12")), Some(Text("3")), None, Some("ab"), Some("v.mp4"),
            None, None, Some(Text("0")), None, Some(Text(" 170\n")))
  }

  /** The string entry is file 12 in directory 3, with mtime 170 and ctime 0, and an image,
      since the string "0" is true. */
  lemma StringFieldsConvert()
    ensures NormalizeAttr(StringEntry()) == Some(Attr(12, 3, "ab", "v.mp4", 0, "", false, true, 0, 170))
  {
    ExampleIds();
    ExampleTime();
    FileEntry(StringEntry(), 12, 3, 170);
  }

  /** A file entry without `tp` whose `int()` conversions succeed. */
  lemma FileEntry(info: RawInfo, id: int, parent: int, mtime: int)
    requires info.fid.Some? && info.cid.Some? && info.pc.Some? && info.n.Some? && info.tp.None? && info.te.Some?
    requires PyInt(info.fid.value) == Some(id) && PyInt(info.cid.value) == Some(parent)
    requires PyInt(info.te.value) == Some(mtime)
    ensures NormalizeAttr(info) == Some(Attr(id, parent, info.pc.value, info.n.value, OrZero(info.s),
              OrEmpty(info.sha), false, info.u.Some? && Truthy(info.u.value), 0, mtime))
  {
  }

  lemma ExampleIds()
    ensures PyInt(Text("12")) == Some(12) && PyInt(Text("3")) == Some(3)
  {
    assert "" + Spelling(12) + "" == "12" && "" + Spelling(3) + "" == "3";
    IntRoundTrip(12, "", "");
    IntRoundTrip(3, "", "");
  }

  lemma ExampleTime()
    ensures PyInt(Text(" 170\n")) == Some(170)
  {
    assert " " + Spelling(170) + "\n" == " 170\n";
    IntRoundTrip(170, " ", "\n");
  }

  /** With `"te": null` the entry raises `TypeError`. */
  lemma NullTimeRaises()
    ensures NormalizeAttr(StringEntry().(te := Some(Null))).None?
  {
  }

  /** With `"cid": "x3"` the entry raises `ValueError`. */
  lemma MalformedIdRaises()
    ensures NormalizeAttr(StringEntry().(cid := Some(Text("x3")))).None?
  {
    NotAnInt();
  }

  lemma NotAnInt()
    ensures ParseInt("x3").None?
  {
    var t := "x3";
    assert t[0] == 'x' && !IsSpace(t[0]) && !IsDigit(t[0]);
    assert StripStart(t) == t;
    assert t[|t| - 1] == '3' && !IsSpace(t[|t| - 1]);
    assert StripEnd(t) == t;
    assert !IsDecimal(t);
  }

  // ---------------------------------------------------------------------------
  // Splitting on a separator

  predicate OccursAt(s: string, sep: string, j: int)
  {
    0 <= j && j + |sep| <= |s| && s[j..j + |sep|] == sep
  }

  /** The first occurrence of `sep` in `s` at or after `i`. */
  function Find(s: string, sep: string, i: nat): (k: Option<nat>)
    requires |sep| > 0
    ensures k.Some? ==> i <= k.value && OccursAt(s, sep, k.value)
    ensures k.Some? ==> forall j :: i <= j < k.value ==> !OccursAt(s, sep, j)
    ensures k.None? ==> forall j :: i <= j ==> !OccursAt(s, sep, j)
    decreases |s| - i
  {
    if i + |sep| > |s| then None
    else if s[i..i + |sep|] == sep then Some(i)
    else Find(s, sep, i + 1)
  }

  /** `s.split(sep)`: the pieces between the leftmost non-overlapping occurrences. */
  function Split(s: string, sep: string): (parts: seq<string>)
    requires |sep| > 0
    ensures |parts| > 0
    decreases |s|
  {
    var k := Find(s, sep, 0);
    if k.None? then [s] else [s[..k.value]] + Split(s[k.value + |sep|..], sep)
  }

  /** `sep.join(parts)`. */
  function Join(parts: seq<string>, sep: string): string
    decreases |parts|
  {
    if parts == [] then ""
    else if |parts| == 1 then parts[0]
    else parts[0] + sep + Join(parts[1..], sep)
  }

  /** Joining the pieces back gives the string. */
  lemma {:induction false} SplitJoin(s: string, sep: string)
    requires |sep| > 0
    ensures Join(Split(s, sep), sep) == s
    decreases |s|
  {
    var k := Find(s, sep, 0);
    if k.Some? {
      var rest := s[k.value + |sep|..];
      SplitJoin(rest, sep);
      assert Split(s, sep) == [s[..k.value]] + Split(rest, sep);
      assert s == s[..k.value] + s[k.value..k.value + |sep|] + rest;
    }
  }

  /** No piece contains the separator. */
  lemma {:induction false} SplitPartsFree(s: string, sep: string)
    requires |sep| > 0
    ensures forall p, j :: p in Split(s, sep) ==> !OccursAt(p, sep, j)
    decreases |s|
  {
    var k := Find(s, sep, 0);
    if k.Some? {
      var head := s[..k.value];
      var rest := s[k.value + |sep|..];
      SplitPartsFree(rest, sep);
      forall j | OccursAt(head, sep, j)
        ensures false
      {
        assert s[j..j + |sep|] == head[j..j + |sep|];
        assert OccursAt(s, sep, j);
      }
      assert Split(s, sep) == [head] + Split(rest, sep);
    }
  }

  // ---------------------------------------------------------------------------
  // normalize_path

  const Crumb: string := " > "
  const RootCrumb: string := "根目录 > "

  /** What `normalize_path` hands to the remote lookup: a directory id, the breadcrumb
      parts given to `joins`, or the absolute path given to `normpath` (both left
      uninterpreted). */
  datatype Target = Id(id: nat) | Crumbs(parts: seq<string>) | AbsPath(path: string)

  function NormalizePath(path: string): (t: Target)
    ensures path in {"0", ".", "..", "/"} ==> t == Id(0)
    ensures t.AbsPath? ==> |t.path| > 0 && t.path[0] == '/'
    ensures t.Crumbs? ==> |t.parts| > 0 && t.parts[0] == ""
  {
    if path in {"0", ".", "..", "/"} then Id(0)
    else if IsDecimal(path) then Id(DecimalValue(path))
    else if |RootCrumb| <= |path| && path[..|RootCrumb|] == RootCrumb then
      Crumbs([""] + Split(path, Crumb)[1..])
    else if |path| > 0 && path[0] == '/' then AbsPath(path)
    else AbsPath("/" + path)
  }

  /** A decimal spelling of an id denotes that id. */
  lemma IdRoundTrip(n: nat)
    ensures NormalizePath(DecimalString(n)) == Id(n)
  {
    DecimalRoundTrip(n);
  }

  /** A breadcrumb trail drops the root label and keeps the parts after it. */
  lemma {:induction false} CrumbsDropRoot(rest: string)
    ensures NormalizePath(RootCrumb + rest) == Crumbs([""] + Split(rest, Crumb))
  {
    var path := RootCrumb + rest;
    assert path[..|RootCrumb|] == RootCrumb;
    assert !IsDigit(path[0]);
    assert path !in {"0", ".", "..", "/"} by {
      assert |path| >= 6;
    }
    assert !OccursAt(path, Crumb, 0) by { assert path[0] != ' '; }
    assert !OccursAt(path, Crumb, 1) by { assert path[1] != ' '; }
    assert !OccursAt(path, Crumb, 2) by { assert path[2] != ' '; }
    assert OccursAt(path, Crumb, 3);
    assert Find(path, Crumb, 0) == Some(3);
    assert path[6..] == rest;
  }

  /** A path that names no id and no breadcrumb trail is made absolute. */
  lemma RelativeMadeAbsolute(path: string)
    requires |path| > 0 && path[0] != '/' && !IsDecimal(path) && path !in {"0", ".", ".."}
    requires !(|RootCrumb| <= |path| && path[..|RootCrumb|] == RootCrumb)
    ensures NormalizePath(path) == AbsPath("/" + path)
  {
  }
}
