/** String operations of the Python standard library that the processors rely
    on: `str.join`, `f"{i:03d}"`, `str.upper`/`str.lower`, and the POSIX path
    helpers `os.path.basename`, `os.path.splitext`, `os.path.join` and
    `pathlib.PurePath.stem`. */
module Text {

  // ---------------------------------------------------------------------------
  // str.join

  /** `sep.join(parts)`. */
  function Join(sep: string, parts: seq<string>): string
    decreases |parts|
  {
    if parts == [] then ""
    else if |parts| == 1 then parts[0]
    else Join(sep, parts[..|parts| - 1]) + sep + parts[|parts| - 1]
  }

  /** Joining two non-empty lists is joining each and gluing them with one
      separator: the separator stands exactly between neighbouring parts. */
  lemma {:induction false} JoinAppend(sep: string, a: seq<string>, b: seq<string>)
    requires a != [] && b != []
    ensures Join(sep, a + b) == Join(sep, a) + sep + Join(sep, b)
    decreases |b|
  {
    if |b| == 1 {
      assert (a + b)[..|a + b| - 1] == a;
    } else {
      var front := b[..|b| - 1];
      assert (a + b)[..|a + b| - 1] == a + front;
      JoinAppend(sep, a, front);
    }
  }

  /** A single part is joined to itself, with no separator. */
  lemma JoinOne(sep: string, part: string)
    ensures Join(sep, [part]) == part
  {
  }

  /** The joined text is empty only when there is nothing to join or the one
      part is itself empty, provided the separator is not empty. */
  lemma {:induction false} JoinEmpty(sep: string, parts: seq<string>)
    requires sep != ""
    ensures Join(sep, parts) == "" <==> parts == [] || (|parts| == 1 && parts[0] == "")
    decreases |parts|
  {
    if |parts| > 1 {
      assert |Join(sep, parts)| >= |sep|;
    }
  }

  // ---------------------------------------------------------------------------
  // Decimal rendering: str(n) and f"{n:03d}"

  predicate IsDigit(c: char) {
    '0' <= c <= '9'
  }

  predicate AllDigits(s: string) {
    forall k :: 0 <= k < |s| ==> IsDigit(s[k])
  }

  function DigitChar(d: nat): (c: char)
    requires d < 10
    ensures IsDigit(c)
  {
    (('0' as int) + d) as char
  }

  function DigitValue(c: char): (d: nat)
    requires IsDigit(c)
    ensures d < 10
  {
    (c as int) - ('0' as int)
  }

  /** `str(n)` for a non-negative integer: no leading zeros, at least one digit. */
  function Decimal(n: nat): (r: string)
    ensures |r| >= 1 && AllDigits(r)
    ensures |r| > 1 ==> r[0] != '0'
    ensures n < 10 <==> |r| == 1
    ensures n < 100 <==> |r| <= 2
    ensures n < 1000 <==> |r| <= 3
    decreases n
  {
    if n < 10 then [DigitChar(n)] else Decimal(n / 10) + [DigitChar(n % 10)]
  }

  /** Reads a string of decimal digits back as a number (leading zeros allowed). */
  function ParseDecimal(s: string): nat
    requires AllDigits(s)
    decreases |s|
  {
    if s == [] then 0 else ParseDecimal(s[..|s| - 1]) * 10 + DigitValue(s[|s| - 1])
  }

  /** `k` zeros. */
  function Zeros(k: nat): string
  {
    seq(k, _ => '0')
  }

  /** `f"{n:03d}"`: `str(n)` left-padded with zeros to width three; a number
      of four or more digits is written in full. */
  function Pad3(n: nat): (r: string)
    ensures AllDigits(r)
    ensures n < 1000 ==> |r| == 3
    ensures n >= 1000 ==> r == Decimal(n)
  {
    var d := Decimal(n);
    if |d| >= 3 then d else Zeros(3 - |d|) + d
  }

  lemma {:induction false} ParseDecimalOfDecimal(n: nat)
    ensures ParseDecimal(Decimal(n)) == n
    decreases n
  {
    if n >= 10 {
      var d := Decimal(n);
      assert d[..|d| - 1] == Decimal(n / 10);
      ParseDecimalOfDecimal(n / 10);
    }
  }

  lemma {:induction false} ParseDecimalSkipsZeros(k: nat, s: string)
    requires AllDigits(s)
    ensures AllDigits(Zeros(k) + s) && ParseDecimal(Zeros(k) + s) == ParseDecimal(s)
    decreases |s|
  {
    var z := Zeros(k) + s;
    if s == [] {
      assert z == Zeros(k);
      ParseDecimalOfZeros(k);
    } else {
      var front := s[..|s| - 1];
      assert z[..|z| - 1] == Zeros(k) + front;
      ParseDecimalSkipsZeros(k, front);
    }
  }

  lemma {:induction false} ParseDecimalOfZeros(k: nat)
    ensures ParseDecimal(Zeros(k)) == 0
    decreases k
  {
    if k > 0 {
      assert Zeros(k)[..k - 1] == Zeros(k - 1);
      ParseDecimalOfZeros(k - 1);
    }
  }

  /** The zero-padded page number reads back as the page number. */
  lemma Pad3RoundTrip(n: nat)
    ensures ParseDecimal(Pad3(n)) == n
  {
    var d := Decimal(n);
    ParseDecimalOfDecimal(n);
    if |d| < 3 {
      ParseDecimalSkipsZeros(3 - |d|, d);
    }
  }

  /** Distinct page numbers get distinct padded names. */
  lemma Pad3Injective(m: nat, n: nat)
    ensures Pad3(m) == Pad3(n) ==> m == n
  {
    Pad3RoundTrip(m);
    Pad3RoundTrip(n);
  }

  // ---------------------------------------------------------------------------
  // Case mapping

  predicate IsCapital(c: char) {
    'A' <= c <= 'Z'
  }

  predicate AllCapitals(s: string) {
    forall k :: 0 <= k < |s| ==> IsCapital(s[k])
  }

  /** Python's `str.upper` on one character, for every character whose
      upper-case form is written with the letters A to Z: a to z, sharp s,
      dotless i, long s and the Latin ligatures U+FB00 to U+FB06. Any other
      character is kept as it is. */
  function UpperChar(c: char): (r: string)
    ensures IsCapital(c) ==> r == [c]
  {
    if 'a' <= c <= 'z' then [((c as int) - 32) as char]
    else if c == 'ß' then "SS"
    else if c == 'ı' then "I"
    else if c == 'ſ' then "S"
    else if c == 'ﬀ' then "FF"
    else if c == 'ﬁ' then "FI"
    else if c == 'ﬂ' then "FL"
    else if c == 'ﬃ' then "FFI"
    else if c == 'ﬄ' then "FFL"
    else if c == 'ﬅ' || c == 'ﬆ' then "ST"
    else [c]
  }

  /** `s.upper()`. */
  function Upper(s: string): string
    decreases |s|
  {
    if s == [] then "" else Upper(s[..|s| - 1]) + UpperChar(s[|s| - 1])
  }

  function LowerChar(c: char): (r: char)
    ensures IsCapital(c) ==> 'a' <= r <= 'z' && UpperChar(r) == [c]
    ensures !IsCapital(c) ==> r == c
  {
    if IsCapital(c) then ((c as int) + 32) as char else c
  }

  /** `s.lower()` on ASCII text: A to Z become a to z. */
  function Lower(s: string): (r: string)
    ensures |r| == |s|
    ensures forall k :: 0 <= k < |s| && IsCapital(s[k]) ==> 'a' <= r[k] <= 'z' && UpperChar(r[k]) == [s[k]]
    ensures forall k :: 0 <= k < |s| && !IsCapital(s[k]) ==> r[k] == s[k]
  {
    seq(|s|, k requires 0 <= k < |s| => LowerChar(s[k]))
  }

  /** Upper-casing undoes lower-casing on a name written in capitals. */
  lemma {:induction false} UpperOfLower(s: string)
    requires AllCapitals(s)
    ensures Upper(Lower(s)) == s
    decreases |s|
  {
    if s != [] {
      var front := s[..|s| - 1];
      assert Lower(s)[..|s| - 1] == Lower(front);
      UpperOfLower(front);
    }
  }

  /** Upper-casing gives a capitalised name back from any spelling of it
      that writes each letter either as the capital or as its small letter. */
  lemma {:induction false} UpperOfCaseVariant(s: string, name: string)
    requires AllCapitals(name) && |s| == |name|
    requires forall k :: 0 <= k < |s| ==> s[k] == name[k] || s[k] == LowerChar(name[k])
    ensures Upper(s) == name
    decreases |s|
  {
    if s != [] {
      var n := |s|;
      UpperOfCaseVariant(s[..n - 1], name[..n - 1]);
      assert UpperChar(s[n - 1]) == [name[n - 1]];
      assert name == name[..n - 1] + [name[n - 1]];
    }
  }

  /** A name written in capitals is its own upper case. */
  lemma {:induction false} UpperOfCapitals(s: string)
    requires AllCapitals(s)
    ensures Upper(s) == s
    decreases |s|
  {
    if s != [] {
      UpperOfCapitals(s[..|s| - 1]);
    }
  }

  // ---------------------------------------------------------------------------
  // POSIX paths

  /** `s.rfind(c)`: the last index of `c`, or -1. */
  function LastIndexOf(s: string, c: char): (i: int)
    ensures -1 <= i < |s|
    ensures i >= 0 ==> s[i] == c
    ensures forall k :: i < k < |s| ==> s[k] != c
    decreases |s|
  {
    if s == [] then -1
    else if s[|s| - 1] == c then |s| - 1
    else LastIndexOf(s[..|s| - 1], c)
  }

  /** `os.path.basename(p)`: what follows the last slash. */
  function BaseName(p: string): (r: string)
    ensures '/' !in r
    ensures |r| <= |p| && r == p[|p| - |r|..]
    ensures r == p || p[|p| - |r| - 1] == '/'
  {
    p[LastIndexOf(p, '/') + 1..]
  }

  /** `p[i]` is the dot that starts `p`'s extension: the last dot of the
      final component, with some character other than a dot before it in
      that component. */
  predicate ExtensionDot(p: string, i: int) {
    && 0 <= i < |p|
    && p[i] == '.'
    && (forall k :: i < k < |p| ==> p[k] != '.' && p[k] != '/')
    && exists k :: 0 <= k < i && p[k] != '.' && forall m :: k <= m < i ==> p[m] != '/'
  }

  /** `os.path.splitext(p)[0]`: drops the extension, that is the text from the
      last dot of the final component, unless that component has nothing but
      dots before it. */
  function SplitExtRoot(p: string): (r: string)
    ensures r == p || (|r| < |p| && r == p[..|r|] && p[|r|] == '.')
  {
    var slash := LastIndexOf(p, '/');
    var dot := LastIndexOf(p, '.');
    if dot > slash && exists k :: slash < k < dot && p[k] != '.' then p[..dot] else p
  }

  /** The root is `p` cut at its extension dot, or `p` itself when it has none. */
  lemma SplitExtRootCutsExtension(p: string)
    ensures var r := SplitExtRoot(p);
      r == p || (|r| < |p| && r == p[..|r|] && ExtensionDot(p, |r|))
    ensures forall i :: ExtensionDot(p, i) ==> SplitExtRoot(p) == p[..i]
  {
    ExtensionDotIsLastDot(p, LastIndexOf(p, '/'), LastIndexOf(p, '.'));
  }

  /** The extension dot, if any, is the last dot, and it follows the last
      slash with a character other than a dot between them. */
  lemma ExtensionDotIsLastDot(p: string, slash: int, dot: int)
    requires slash == LastIndexOf(p, '/') && dot == LastIndexOf(p, '.')
    ensures forall i :: ExtensionDot(p, i) ==> i == dot && dot > slash && exists k :: slash < k < dot && p[k] != '.'
    ensures (dot > slash && exists k :: slash < k < dot && p[k] != '.') ==> ExtensionDot(p, dot)
  {
    forall i | ExtensionDot(p, i)
      ensures i == dot && dot > slash && exists k :: slash < k < dot && p[k] != '.'
    {
      var k :| 0 <= k < i && p[k] != '.' && forall m :: k <= m < i ==> p[m] != '/';
      assert slash < k;
    }
    if dot > slash && exists k :: slash < k < dot && p[k] != '.' {
      var k :| slash < k < dot && p[k] != '.';
      assert forall m :: k <= m < dot ==> p[m] != '/';
    }
  }

  /** `os.path.join(a, b)` for two components. */
  function PathJoin(a: string, b: string): (r: string)
    ensures |b| <= |r| && r[|r| - |b|..] == b
    ensures (|b| == 0 || b[0] != '/') ==> |a| <= |r| && r[..|a|] == a
    ensures |b| > 0 && b[0] == '/' ==> r == b
    ensures (|b| == 0 || b[0] != '/') && a == [] ==> r == b
    ensures (|b| == 0 || b[0] != '/') && a != [] ==>
      && |r| == |a| + |b| + (if a[|a| - 1] == '/' then 0 else 1)
      && r[|r| - |b| - 1] == '/'
  {
    if |b| > 0 && b[0] == '/' then b
    else if a == [] || a[|a| - 1] == '/' then a + b
    else a + "/" + b
  }

  /** Joining a directory and a bare file name, then taking the base name,
      gives back the file name. */
  lemma BaseNameOfJoin(dir: string, name: string)
    requires name != [] && '/' !in name
    ensures BaseName(PathJoin(dir, name)) == name
  {
    if dir == [] || dir[|dir| - 1] == '/' {
      assert PathJoin(dir, name) == dir + name;
      LastIndexOfAfter(dir, name, '/');
    } else {
      assert PathJoin(dir, name) == (dir + "/") + name;
      LastIndexOfAfter(dir + "/", name, '/');
    }
  }

  /** `splitext` removes exactly the format extension. */
  lemma SplitExtOfFormat(stem: string, format: string)
    requires '/' !in stem && '/' !in format && '.' !in format
    requires exists k :: 0 <= k < |stem| && stem[k] != '.'
    ensures SplitExtRoot(stem + "." + format) == stem
  {
    var name := stem + "." + format;
    var k :| 0 <= k < |stem| && stem[k] != '.';
    assert name[k] != '.' && forall m :: k <= m < |stem| ==> name[m] != '/';
    assert ExtensionDot(name, |stem|);
    SplitExtRootCutsExtension(name);
    assert name[..|stem|] == stem;
  }

  /** The last `c` in `a + b` is the last character of `a` when `b` has no
      `c` and `a` ends with one; there is none when `a` is empty. */
  lemma {:induction false} LastIndexOfAfter(a: string, b: string, c: char)
    requires c !in b
    requires a == [] || a[|a| - 1] == c
    ensures LastIndexOf(a + b, c) == |a| - 1
    decreases |b|
  {
    if b == [] {
      assert a + b == a;
      if a == [] {
        assert LastIndexOf(a, c) == -1;
      }
    } else {
      var front := b[..|b| - 1];
      assert (a + b)[..|a + b| - 1] == a + front;
      assert (a + b)[|a + b| - 1] == b[|b| - 1];
      LastIndexOfAfter(a, front, c);
    }
  }

  /** `PurePosixPath(p).name`: the last component that is neither empty nor
      ".", or "" when there is none. */
  function PathName(p: string): (r: string)
    ensures '/' !in r && r != "."
    ensures BaseName(p) != "" && BaseName(p) != "." ==> r == BaseName(p)
    decreases |p|
  {
    var slash := LastIndexOf(p, '/');
    var last := p[slash + 1..];
    if last != "" && last != "." then last
    else if slash < 0 then ""
    else PathName(p[..slash])
  }

  /** From index `j` on, `p` holds nothing but slashes and components that
      are a single dot. */
  predicate TrivialFrom(p: string, j: int) {
    forall m :: 0 <= j <= m < |p| ==> TrivialAt(p, m)
  }

  /** `p[m]` is a slash, or a dot that is a component on its own. */
  predicate TrivialAt(p: string, m: int)
    requires 0 <= m < |p|
  {
    p[m] == '/' || (p[m] == '.' && (m == 0 || p[m - 1] == '/') && (m == |p| - 1 || p[m + 1] == '/'))
  }

  /** `p[i..j]` is a whole component of `p` (no slash inside, a slash or the
      start before it), and only slashes and "." components follow it. */
  predicate TrailingComponent(p: string, i: int, j: int) {
    && 0 <= i <= j <= |p|
    && (forall m :: i <= m < j ==> p[m] != '/')
    && (i == 0 || p[i - 1] == '/')
    && TrivialFrom(p, j)
  }

  /** `Path(p).name` is "" exactly when the path is all slashes and "."
      components; otherwise it is a whole component followed only by such
      trivial text. */
  ghost predicate NameIsLastComponent(p: string) {
    && (PathName(p) == "" <==> TrivialFrom(p, 0))
    && (PathName(p) != "" ==> exists i, j :: TrailingComponent(p, i, j) && PathName(p) == p[i..j])
  }

  lemma {:induction false} PathNameIsLastComponent(p: string)
    ensures NameIsLastComponent(p)
    decreases |p|, 1
  {
    var slash := LastIndexOf(p, '/');
    var last := p[slash + 1..];
    if last != "" && last != "." {
      PathNameOfNamed(p, slash);
    } else if slash < 0 {
      PathNameOfBare(p, slash);
    } else {
      PathNameOfCut(p, slash);
    }
  }

  /** A path whose text after the last slash is a real name: that text is
      the name. */
  lemma PathNameOfNamed(p: string, slash: int)
    requires slash == LastIndexOf(p, '/')
    requires var last := p[slash + 1..]; last != "" && last != "."
    ensures NameIsLastComponent(p)
  {
    NamedComponentIsNotTrivial(p, slash + 1);
    assert TrailingComponent(p, slash + 1, |p|);
    PathNameOfNamedIs(p, slash);
  }

  /** The one unfolding of `PathName` that the named case needs. */
  lemma PathNameOfNamedIs(p: string, slash: int)
    requires slash == LastIndexOf(p, '/')
    requires var last := p[slash + 1..]; last != "" && last != "."
    ensures PathName(p) == p[slash + 1..|p|]
  {
    assert p[slash + 1..|p|] == p[slash + 1..];
  }

  /** A path without slashes that is "" or "." has the empty name. */
  lemma PathNameOfBare(p: string, slash: int)
    requires slash == LastIndexOf(p, '/') && slash < 0
    requires var last := p[slash + 1..]; last == "" || last == "."
    ensures NameIsLastComponent(p)
  {
    assert p[0..] == p;
    assert PathName(p) == "";
    if p != "" {
      assert TrivialAt(p, 0);
    }
  }

  /** The inductive step: when only "" or "." follows the last slash, the
      name is the name of the path before that slash. */
  lemma PathNameOfCut(p: string, slash: int)
    requires slash == LastIndexOf(p, '/') && slash >= 0
    requires var last := p[slash + 1..]; last == "" || last == "."
    ensures NameIsLastComponent(p)
    decreases |p|, 0
  {
    var q := p[..slash];
    PathNameIsLastComponent(q);
    assert PathName(p) == PathName(q);
    TrivialExtends(p, slash, 0);
    if PathName(p) != "" {
      var i, j :| TrailingComponent(q, i, j) && PathName(q) == q[i..j];
      TrailingComponentExtends(p, slash, i, j);
    }
  }

  /** A slash-free tail of the path that is neither empty nor "." is a
      component other than "" and ".". */
  lemma NamedComponentIsNotTrivial(p: string, m: int)
    requires 0 <= m <= |p| && (forall k :: m <= k < |p| ==> p[k] != '/')
    requires p[m..] != "" && p[m..] != "."
    ensures !TrivialFrom(p, 0)
  {
    if m < |p| - 1 {
      assert p[m + 1] != '/';
    } else {
      assert p[m..] == [p[m]];
    }
    assert !TrivialAt(p, m);
  }

  /** A trailing component of the path before its last slash stays one when
      what follows that slash is empty or ".". */
  lemma TrailingComponentExtends(p: string, slash: int, i: int, j: int)
    requires 0 <= slash < |p| && p[slash] == '/'
    requires var last := p[slash + 1..]; last == "" || last == "."
    requires TrailingComponent(p[..slash], i, j)
    ensures TrailingComponent(p, i, j) && p[..slash][i..j] == p[i..j]
  {
    TrivialExtends(p, slash, j);
  }

  /** Cutting a path at its last slash, when only "" or "." follows that
      slash, does not change whether it is trivial from `j` on. */
  lemma TrivialExtends(p: string, slash: int, j: int)
    requires 0 <= j <= slash < |p| && p[slash] == '/'
    requires var last := p[slash + 1..]; last == "" || last == "."
    ensures TrivialFrom(p, j) <==> TrivialFrom(p[..slash], j)
  {
    var q := p[..slash];
    if slash + 1 < |p| {
      assert p[slash + 1] == p[slash + 1..][0] == '.';
      assert |p| == slash + 2;
    }
    forall m | j <= m < slash ensures TrivialAt(p, m) <==> TrivialAt(q, m) {
    }
    forall m | slash <= m < |p| ensures TrivialAt(p, m) {
    }
  }

  /** `PurePosixPath(p).stem`: the name without its suffix, where the suffix
      starts at the name's last dot if that dot is neither the first nor the
      last character of the name. */
  function Stem(p: string): (r: string)
    ensures '/' !in r
    ensures var name := PathName(p);
      || r == name
      || (0 < |r| < |name| - 1 && r == name[..|r|] && name[|r|] == '.' && '.' !in name[|r| + 1..])
  {
    var name := PathName(p);
    var dot := LastIndexOf(name, '.');
    if 0 < dot < |name| - 1 then name[..dot] else name
  }

  /** The stem differs from the name exactly when the name's last dot is
      neither its first nor its last character. */
  lemma StemDropsSuffix(p: string)
    ensures var name := PathName(p);
      Stem(p) != name <==> exists i :: 0 < i < |name| - 1 && name[i] == '.' && forall k :: i < k < |name| ==> name[k] != '.'
  {
    var name := PathName(p);
    LastDotInside(name);
    var dot := LastIndexOf(name, '.');
    if 0 < dot < |name| - 1 {
      assert |Stem(p)| == dot < |name|;
    }
  }

  /** The last dot of `name` lies strictly inside it exactly when some dot
      strictly inside it has no dot after it. */
  lemma LastDotInside(name: string)
    ensures var dot := LastIndexOf(name, '.');
      0 < dot < |name| - 1 <==> exists i :: 0 < i < |name| - 1 && name[i] == '.' && forall k :: i < k < |name| ==> name[k] != '.'
  {
    var dot := LastIndexOf(name, '.');
    if exists i :: 0 < i < |name| - 1 && name[i] == '.' && forall k :: i < k < |name| ==> name[k] != '.' {
      var i :| 0 < i < |name| - 1 && name[i] == '.' && forall k :: i < k < |name| ==> name[k] != '.';
      assert i == dot;
    }
  }
}
