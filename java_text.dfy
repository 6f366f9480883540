/**
 * The pieces of java.lang.String, java.lang.Integer, commons-lang StringUtils and
 * commons-io FilenameUtils that the publishing code relies on, with the edge cases
 * (exceptions, -1 results, int wrap-around) those library calls have.
 */
module JavaText {
  import opened Wrappers

  const MinInt: int := -0x8000_0000
  const MaxInt: int := 0x7FFF_FFFF

  /** A Java `int`. */
  type Int32 = x: int | MinInt <= x <= MaxInt

  /** Java's two's-complement wrap-around of an `int` result. */
  function Wrap32(x: int): (r: Int32)
    ensures MinInt <= x <= MaxInt ==> r == x
    ensures x > MaxInt && x <= MaxInt + 0x1_0000_0000 ==> r == x - 0x1_0000_0000
    ensures x < MinInt && x >= MinInt - 0x1_0000_0000 ==> r == x + 0x1_0000_0000
  {
    (x - MinInt) % 0x1_0000_0000 + MinInt
  }

  // ---------------------------------------------------------------- characters

  predicate IsAsciiDigit(c: char) { '0' <= c <= '9' }

  predicate AllDigits(s: string) { forall k :: 0 <= k < |s| ==> IsAsciiDigit(s[k]) }

  /** Character.isWhitespace: Unicode space separators other than the no-break ones, and the ASCII controls it lists. */
  predicate IsWhitespace(c: char) {
    || c == ' ' || c == '\t' || c == '\n' || c == '\U{B}' || c == '\U{C}' || c == '\r'
    || ('\U{1C}' <= c <= '\U{1F}')
    || c == '\U{1680}' || ('\U{2000}' <= c <= '\U{2006}') || ('\U{2008}' <= c <= '\U{200A}')
    || c == '\U{2028}' || c == '\U{2029}' || c == '\U{205F}' || c == '\U{3000}'
  }

  /** StringUtils.isBlank: null, empty, or whitespace only. */
  predicate IsBlank(s: Option<string>) {
    s.None? || forall k :: 0 <= k < |s.value| ==> IsWhitespace(s.value[k])
  }

  function ToLowerChar(c: char): char {
    if 'A' <= c <= 'Z' then (c as int + 32) as char else c
  }

  /** String.toLowerCase, on the ASCII letters. */
  function ToLower(s: string): (r: string)
    ensures |r| == |s| && forall k :: 0 <= k < |s| ==> r[k] == ToLowerChar(s[k])
  {
    seq(|s|, k requires 0 <= k < |s| => ToLowerChar(s[k]))
  }

  function ToUpperChar(c: char): char {
    if 'a' <= c <= 'z' then (c as int - 32) as char else c
  }

  /** String.toUpperCase, on the ASCII letters. */
  function ToUpper(s: string): (r: string)
    ensures |r| == |s| && forall k :: 0 <= k < |s| ==> r[k] == ToUpperChar(s[k])
  {
    if |s| == 0 then [] else [ToUpperChar(s[0])] + ToUpper(s[1..])
  }

  /** String.equalsIgnoreCase, on the ASCII letters. */
  predicate EqualsIgnoreCase(a: string, b: string) {
    |a| == |b| && forall k :: 0 <= k < |a| ==> ToLowerChar(a[k]) == ToLowerChar(b[k])
  }

  /** A byte of a Java byte array, read as unsigned. */
  newtype byte = b: int | 0 <= b < 256

  predicate IsAscii(s: string) { forall k :: 0 <= k < |s| ==> s[k] as int < 128 }

  /** String.getBytes for text that is plain ASCII, where every charset agrees. */
  function AsciiBytes(s: string): (r: seq<byte>)
    requires IsAscii(s)
    ensures |r| == |s| && forall k :: 0 <= k < |s| ==> r[k] as int == s[k] as int
  {
    seq(|s|, k requires 0 <= k < |s| => s[k] as int as byte)
  }

  // ---------------------------------------------------------------- searching

  predicate StartsWith(s: string, p: string) { |p| <= |s| && s[..|p|] == p }

  /** String.indexOf(char): the first position of `c`, or -1. */
  function IndexOf(s: string, c: char): (r: int)
    ensures -1 <= r < |s|
    ensures r == -1 ==> forall k :: 0 <= k < |s| ==> s[k] != c
    ensures r >= 0 ==> s[r] == c && forall k :: 0 <= k < r ==> s[k] != c
  {
    if |s| == 0 then -1
    else if s[0] == c then 0
    else
      var k := IndexOf(s[1..], c);
      if k == -1 then -1 else k + 1
  }

  /** indexOf gives -1 exactly when the character does not occur. */
  lemma {:induction false} IndexOfAbsent(s: string, c: char)
    ensures IndexOf(s, c) == -1 <==> c !in s
  {
  }

  /** The first position holding `c` is the one indexOf reports. */
  lemma {:induction false} IndexOfAt(s: string, c: char, i: nat)
    requires i < |s| && s[i] == c && forall k :: 0 <= k < i ==> s[k] != c
    ensures IndexOf(s, c) == i
  {
  }

  /** The first `c` of `a + [c] + rest`, when `a` holds none, is the one after `a`. */
  lemma IndexOfAfterFree(a: string, c: char, rest: string)
    requires c !in a
    ensures IndexOf(a + [c] + rest, c) == |a|
  {
    var s := a + [c] + rest;
    assert forall k :: 0 <= k < |a| ==> s[k] == a[k];
    IndexOfAt(s, c, |a|);
  }

  /** String.lastIndexOf(char): the last position of `c`, or -1. */
  function LastIndexOf(s: string, c: char): (r: int)
    ensures -1 <= r < |s|
    ensures r == -1 <==> c !in s
    ensures r >= 0 ==> s[r] == c && forall k :: r < k < |s| ==> s[k] != c
  {
    if |s| == 0 then -1
    else if s[|s| - 1] == c then |s| - 1
    else
      assert forall x :: x in s <==> x in s[..|s| - 1] || x == s[|s| - 1];
      LastIndexOf(s[..|s| - 1], c)
  }

  /** String.contains: some infix of `s` equals `sub`. */
  predicate Contains(s: string, sub: string)
    decreases |s|
  {
    StartsWith(s, sub) || (|s| > 0 && Contains(s[1..], sub))
  }

  /** `sub` occurs in `s` starting at index `i`. */
  predicate OccursAt(s: string, sub: string, i: nat) {
    i + |sub| <= |s| && s[i..i + |sub|] == sub
  }

  /** contains holds exactly when `sub` occurs at some position of `s`. */
  lemma {:induction false} ContainsMeaning(s: string, sub: string)
    ensures Contains(s, sub) <==> exists i: nat :: OccursAt(s, sub, i)
    decreases |s|
  {
    if Contains(s, sub) {
      if StartsWith(s, sub) {
        assert OccursAt(s, sub, 0);
      } else {
        ContainsMeaning(s[1..], sub);
        var j: nat :| OccursAt(s[1..], sub, j);
        assert s[1..][j..j + |sub|] == s[j + 1..j + 1 + |sub|];
        assert OccursAt(s, sub, j + 1);
      }
    } else if i: nat :| OccursAt(s, sub, i) {
      if i > 0 {
        assert s[1..][i - 1..i - 1 + |sub|] == s[i..i + |sub|];
        assert OccursAt(s[1..], sub, i - 1);
        ContainsMeaning(s[1..], sub);
      }
    }
  }

  /** String.substring(begin, end), which throws unless 0 <= begin <= end <= length. */
  function Substring(s: string, begin: int, end: int): (r: Result<string>)
    ensures r.Ok? <==> 0 <= begin <= end <= |s|
    ensures r.Ok? ==> r.value == s[begin..end]
    ensures r.Throws? ==> r.exc == IndexOutOfBounds
  {
    if 0 <= begin <= end <= |s| then Ok(s[begin..end]) else Throws(IndexOutOfBounds)
  }

  // ---------------------------------------------------------------- trimming

  /** The number of leading characters String.trim removes (those at or below U+0020). */
  function LeadingSpace(s: string): (n: nat)
    ensures n <= |s|
    ensures forall k :: 0 <= k < n ==> s[k] <= ' '
    ensures n < |s| ==> s[n] > ' '
  {
    if |s| == 0 || s[0] > ' ' then 0 else 1 + LeadingSpace(s[1..])
  }

  /** The number of trailing characters String.trim removes. */
  function TrailingSpace(s: string): (n: nat)
    ensures n <= |s|
    ensures forall k :: |s| - n <= k < |s| ==> s[k] <= ' '
    ensures n < |s| ==> s[|s| - 1 - n] > ' '
  {
    if |s| == 0 || s[|s| - 1] > ' ' then 0 else 1 + TrailingSpace(s[..|s| - 1])
  }

  /** String.trim. */
  function Trim(s: string): (r: string)
    ensures |r| <= |s|
    ensures r == [] || (r[0] > ' ' && r[|r| - 1] > ' ')
  {
    var t := s[LeadingSpace(s)..];
    t[..|t| - TrailingSpace(t)]
  }

  /** Trimming never reaches into a prefix that starts and ends with a visible character. */
  lemma {:induction false} TrimKeepsPrefix(p: string, q: string)
    requires |p| > 0 && p[0] > ' ' && p[|p| - 1] > ' '
    ensures |Trim(p + q)| >= |p| && Trim(p + q)[..|p|] == p
  {
    var s := p + q;
    assert LeadingSpace(s) == 0;
    assert s[LeadingSpace(s)..] == s;
    var n := TrailingSpace(s);
    assert s[|p| - 1] == p[|p| - 1];
    assert n <= |q|;
    assert s[..|s| - n][..|p|] == p;
  }

  // ---------------------------------------------------------------- decimal numbers

  function DigitValue(c: char): nat
    requires IsAsciiDigit(c)
  {
    c as int - '0' as int
  }

  function DigitChar(d: nat): (c: char)
    requires d < 10
    ensures IsAsciiDigit(c) && DigitValue(c) == d
  {
    ('0' as int + d) as char
  }

  /** The value of a string of decimal digits, most significant first. */
  function DigitsValue(s: string): nat
    requires AllDigits(s)
  {
    if |s| == 0 then 0 else DigitsValue(s[..|s| - 1]) * 10 + DigitValue(s[|s| - 1])
  }

  /** Integer.toString for a non-negative value: decimal digits without leading zeros. */
  function NatToString(n: nat): (r: string)
    ensures |r| > 0 && AllDigits(r)
  {
    if n < 10 then [DigitChar(n)] else NatToString(n / 10) + [DigitChar(n % 10)]
  }

  /** Integer.toString / string concatenation of an int. */
  function IntToString(n: int): (r: string)
    ensures |r| > 0
  {
    if n < 0 then "-" + NatToString(-n) else NatToString(n)
  }

  /** Integer.parseInt(s): an optional sign, then one or more ASCII digits, with the value within int range. */
  function ParseInt(s: string): (r: Result<Int32>)
    ensures r.Throws? ==> r.exc == NumberFormat
  {
    if |s| == 0 then Throws(NumberFormat)
    else if s[0] == '-' || s[0] == '+' then
      if |s| == 1 || !AllDigits(s[1..]) then Throws(NumberFormat)
      else
        var v: int := if s[0] == '-' then -(DigitsValue(s[1..]) as int) else DigitsValue(s[1..]);
        if MinInt <= v <= MaxInt then Ok(v) else Throws(NumberFormat)
    else if AllDigits(s) && DigitsValue(s) <= MaxInt then Ok(DigitsValue(s))
    else Throws(NumberFormat)
  }

  lemma {:induction false} DigitsOfNatToString(n: nat)
    ensures DigitsValue(NatToString(n)) == n
  {
    var r := NatToString(n);
    if n >= 10 {
      DigitsOfNatToString(n / 10);
      assert r[..|r| - 1] == NatToString(n / 10);
    }
  }

  /** Parsing the decimal text of an int gives the int back. */
  lemma ParseIntOfIntToString(n: Int32)
    ensures ParseInt(IntToString(n)) == Ok(n)
  {
    if n < 0 {
      var m: nat := -(n as int);
      var s := IntToString(n);
      assert s == "-" + NatToString(m);
      assert s[1..] == NatToString(m);
      DigitsOfNatToString(m);
    } else {
      DigitsOfNatToString(n);
    }
  }

  /** A decimal field with a leading zero parses to the value of the remaining digits. */
  lemma {:induction false} DigitsValueLeadingZero(s: string)
    requires AllDigits(s) && |s| > 0 && s[0] == '0'
    ensures DigitsValue(s) == DigitsValue(s[1..])
  {
    if |s| > 1 {
      DigitsValueLeadingZero(s[..|s| - 1]);
      assert s[..|s| - 1][1..] == s[1..][..|s| - 2];
    }
  }

  // ---------------------------------------------------------------- replacing

  /**
   * String.replaceAll(p, "") for a pattern with no regex metacharacters (and String.replace(p, "")):
   * a single left-to-right pass deleting non-overlapping occurrences.
   */
  function RemoveAll(s: string, p: string): (r: string)
    requires |p| > 0
    ensures |r| <= |s|
    decreases |s|
  {
    if |s| == 0 then []
    else if StartsWith(s, p) then RemoveAll(s[|p|..], p)
    else [s[0]] + RemoveAll(s[1..], p)
  }

  /** A string without any occurrence of the pattern is left as it is. */
  lemma {:induction false} RemoveAllAbsent(s: string, p: string)
    requires |p| > 0 && !Contains(s, p)
    ensures RemoveAll(s, p) == s
    decreases |s|
  {
    if |s| > 0 {
      RemoveAllAbsent(s[1..], p);
      assert [s[0]] + s[1..] == s;
    }
  }

  // ---------------------------------------------------------------- splitting and joining

  /** Non-empty pieces, none holding the separator. */
  predicate Pieces(parts: seq<string>, sep: char) {
    forall k :: 0 <= k < |parts| ==> |parts[k]| > 0 && sep !in parts[k]
  }

  /**
   * StringUtils.split(s, sep): the pieces between separators, where adjacent separators
   * count as one and no empty piece is returned.
   */
  function Split(s: string, sep: char): seq<string>
    decreases |s|
  {
    var i := IndexOf(s, sep);
    if i == -1 then (if |s| == 0 then [] else [s])
    else (if i == 0 then [] else [s[..i]]) + Split(s[i + 1..], sep)
  }

  /** Every piece split returns is non-empty and free of the separator. */
  lemma {:induction false} SplitPieces(s: string, sep: char)
    ensures Pieces(Split(s, sep), sep)
    decreases |s|
  {
    var i := IndexOf(s, sep);
    if i == -1 {
      assert sep !in s;
    } else {
      var pre: seq<string> := if i == 0 then [] else [s[..i]];
      var rest := Split(s[i + 1..], sep);
      assert Split(s, sep) == pre + rest;
      SplitPieces(s[i + 1..], sep);
      if i > 0 {
        FirstPiece(s, sep, i);
      }
      PiecesAppend(pre, rest, sep);
    }
  }

  /** The text before the first separator holds no separator. */
  lemma FirstPiece(s: string, sep: char, i: nat)
    requires 0 < i < |s| && forall k :: 0 <= k < i ==> s[k] != sep
    ensures Pieces([s[..i]], sep)
  {
    forall k | 0 <= k < i ensures s[..i][k] != sep {
      assert s[..i][k] == s[k];
    }
  }

  /** Pieces of two lists together. */
  lemma PiecesAppend(a: seq<string>, b: seq<string>, sep: char)
    requires Pieces(a, sep) && Pieces(b, sep)
    ensures Pieces(a + b, sep)
  {
    forall k | 0 <= k < |a + b| ensures |(a + b)[k]| > 0 && sep !in (a + b)[k] {
      if k >= |a| {
        assert (a + b)[k] == b[k - |a|];
      }
    }
  }

  /** Splitting at the first separator: the piece before it, if any, then the split of the rest. */
  lemma SplitAt(s: string, sep: char, i: nat)
    requires i < |s| && s[i] == sep && forall k :: 0 <= k < i ==> s[k] != sep
    ensures Split(s, sep) == (if i == 0 then [] else [s[..i]]) + Split(s[i + 1..], sep)
  {
    IndexOfAt(s, sep, i);
  }

  /** Splitting at a separator that joins two strings splits each of them. */
  lemma {:induction false} SplitAppend(a: string, b: string, sep: char)
    ensures Split(a + [sep] + b, sep) == Split(a, sep) + Split(b, sep)
    decreases |a|
  {
    var i := IndexOf(a, sep);
    if i == -1 {
      SplitAppendFirst(a, b, sep);
    } else {
      SplitAppend(a[i + 1..], b, sep);
      SplitAppendStep(a, b, sep, i);
    }
  }

  /** The joining separator is the first one when the left string has none. */
  lemma SplitAppendFirst(a: string, b: string, sep: char)
    requires sep !in a
    ensures Split(a + [sep] + b, sep) == Split(a, sep) + Split(b, sep)
  {
    var s := a + [sep] + b;
    assert s[..|a|] == a;
    assert s[|a| + 1..] == b;
    SplitAt(s, sep, |a|);
  }

  /** A prefix of a concatenation no longer than its first part is a prefix of that part. */
  lemma PrefixOfAppend(a: string, b: string, i: nat)
    requires i <= |a|
    ensures (a + b)[..i] == a[..i]
  {
  }

  /** A suffix of a concatenation starting inside its first part. */
  lemma SuffixOfAppend(a: string, b: string, i: nat)
    requires i <= |a|
    ensures (a + b)[i..] == a[i..] + b
  {
  }

  /** A suffix of a concatenation starting inside its second part. */
  lemma SuffixInRight(a: string, b: string, j: nat)
    requires j <= |b|
    ensures (a + b)[|a| + j..] == b[j..]
  {
  }

  /** Concatenation is associative. */
  lemma AppendAssoc(a: string, b: string, c: string)
    ensures a + (b + c) == a + b + c
  {
  }

  /** A separator inside the left string comes first: split there, then split the rest with `b`. */
  lemma SplitAppendStep(a: string, b: string, sep: char, i: nat)
    requires i < |a| && a[i] == sep && forall k :: 0 <= k < i ==> a[k] != sep
    requires Split(a[i + 1..] + [sep] + b, sep) == Split(a[i + 1..], sep) + Split(b, sep)
    ensures Split(a + [sep] + b, sep) == Split(a, sep) + Split(b, sep)
  {
    var pre: seq<string> := if i == 0 then [] else [a[..i]];
    var rest := a[i + 1..];
    var x, y := Split(rest, sep), Split(b, sep);
    SplitAtInLeft(a, [sep] + b, sep, i);
    AppendAssoc(a, [sep], b);
    AppendAssoc(rest, [sep], b);
    SplitAt(a, sep, i);
    Regroup(Split(a + [sep] + b, sep), Split(a, sep), pre, x, y);
  }

  /** Regrouping a concatenation of three piece lists. */
  lemma Regroup(u: seq<string>, v: seq<string>, pre: seq<string>, x: seq<string>, y: seq<string>)
    requires u == pre + (x + y) && v == pre + x
    ensures u == v + y
  {
  }

  /** Splitting a concatenation at a separator of its first part. */
  lemma SplitAtInLeft(a: string, c: string, sep: char, i: nat)
    requires i < |a| && a[i] == sep && forall k :: 0 <= k < i ==> a[k] != sep
    ensures Split(a + c, sep) == (if i == 0 then [] else [a[..i]]) + Split(a[i + 1..] + c, sep)
  {
    FirstInLeft(a, c, sep, i);
    SplitAt(a + c, sep, i);
    PrefixOfAppend(a, c, i);
    SuffixOfAppend(a, c, i + 1);
  }

  /** The first occurrence inside the left part is the first occurrence in the concatenation. */
  lemma FirstInLeft(a: string, c: string, sep: char, i: nat)
    requires i < |a| && a[i] == sep && forall k :: 0 <= k < i ==> a[k] != sep
    ensures (a + c)[i] == sep && forall k :: 0 <= k < i ==> (a + c)[k] != sep
  {
  }

  /** The pieces joined with the separator between them. */
  function Join(parts: seq<string>, sep: char): string {
    if |parts| == 0 then "" else if |parts| == 1 then parts[0] else parts[0] + [sep] + Join(parts[1..], sep)
  }

  /** Splitting undoes joining, for pieces that are non-empty and free of the separator. */
  lemma {:induction false} SplitJoin(parts: seq<string>, sep: char)
    requires Pieces(parts, sep)
    ensures Split(Join(parts, sep), sep) == parts
  {
    if |parts| == 1 {
      assert IndexOf(parts[0], sep) == -1;
    } else if |parts| > 1 {
      SplitAppend(parts[0], Join(parts[1..], sep), sep);
      assert IndexOf(parts[0], sep) == -1;
      SplitJoin(parts[1..], sep);
    }
  }

  // ---------------------------------------------------------------- file names

  /** FilenameUtils.indexOfExtension: the last '.', unless a '/' or '\' follows it. */
  function IndexOfExtension(name: string): (r: int)
    ensures -1 <= r < |name|
    ensures r >= 0 ==> name[r] == '.'
  {
    var dot := LastIndexOf(name, '.');
    var slash := LastIndexOf(name, '/');
    var backslash := LastIndexOf(name, '\\');
    var sepPos := if slash > backslash then slash else backslash;
    if sepPos > dot then -1 else dot
  }

  /** FilenameUtils.getExtension: the text after the extension dot, or "". */
  function Extension(name: string): (r: string)
    ensures '.' !in r
  {
    var i := IndexOfExtension(name);
    if i == -1 then "" else name[i + 1..]
  }

  /** FilenameUtils.removeExtension: the text before the extension dot, or the whole name. */
  function RemoveExtension(name: string): (r: string)
    ensures IndexOfExtension(name) >= 0 ==> r + "." + Extension(name) == name
    ensures IndexOfExtension(name) == -1 ==> r == name && Extension(name) == ""
  {
    var i := IndexOfExtension(name);
    if i == -1 then name
    else
      assert name == name[..i] + [name[i]] + name[i + 1..];
      name[..i]
  }

  /** A base name without dots, given an extension, is recovered by removeExtension and getExtension. */
  lemma BaseAndExtension(base: string, ext: string)
    requires '.' !in base && '.' !in ext && '/' !in ext && '\\' !in ext
    ensures RemoveExtension(base + "." + ext) == base
    ensures Extension(base + "." + ext) == ext
  {
    var n := base + "." + ext;
    assert n[|base|] == '.';
    assert LastIndexOf(n, '.') == |base|;
    assert '/' !in n[|base|..] && '\\' !in n[|base|..] by {
      assert n[|base|..] == "." + ext;
    }
  }

  /** The last occurrence in a concatenation lies in the second part when it holds the character at all. */
  lemma {:induction false} LastIndexOfAppend(a: string, b: string, c: char)
    ensures LastIndexOf(a + b, c) == if c in b then |a| + LastIndexOf(b, c) else LastIndexOf(a, c)
    decreases |b|
  {
    if |b| == 0 {
      assert a + b == a;
    } else if b[|b| - 1] != c {
      var b' := b[..|b| - 1];
      assert (a + b)[..|a + b| - 1] == a + b';
      assert b == b' + [b[|b| - 1]];
      assert c in b <==> c in b';
      LastIndexOfAppend(a, b', c);
    }
  }

  /**
   * The extension of a path made of a directory, '/' and an entry name is the extension of the
   * entry name alone, whatever dots the directory part holds.
   */
  lemma ExtensionOfChildPath(dir: string, name: string)
    requires '/' !in name
    ensures Extension(dir + "/" + name) == Extension(name)
  {
    var p := dir + "/" + name;
    var i := IndexOfExtension(name);
    IndexOfExtensionOfChild(dir, name);
    if i >= 0 {
      SuffixInRight(dir + "/", name, i + 1);
    }
  }

  /** Where the extension dot of a child path lies: at the child's own dot, moved past the directory. */
  lemma IndexOfExtensionOfChild(dir: string, name: string)
    requires '/' !in name
    ensures var i := IndexOfExtension(name);
      IndexOfExtension(dir + "/" + name) == if i == -1 then -1 else |dir| + 1 + i
  {
    LastIndexOfInChild(dir, name, '.');
    LastIndexOfInChild(dir, name, '\\');
    LastSlashOfChild(dir, name);
  }

  /** The last occurrence of a character other than '/' in a child path. */
  lemma LastIndexOfInChild(dir: string, name: string, c: char)
    requires c != '/'
    ensures var r := LastIndexOf(dir + "/" + name, c);
      if c in name then r == |dir| + 1 + LastIndexOf(name, c) else r < |dir|
  {
    LastIndexOfAppend(dir + "/", name, c);
    LastIndexOfAppend(dir, "/", c);
    assert c !in "/";
  }

  /** The '/' joining directory and name is the last one when the name has none. */
  lemma LastSlashOfChild(dir: string, name: string)
    requires '/' !in name
    ensures LastIndexOf(dir + "/" + name, '/') == |dir|
  {
    LastIndexOfAppend(dir + "/", name, '/');
    LastIndexOfAppend(dir, "/", '/');
    assert LastIndexOf("/", '/') == 0;
  }
}
