/** The parts of the Java class library that both mojos depend on, stated as
    functions on strings (`seq<char>`): prefix and suffix tests,
    `String.replace`, the two `String.split` forms, `String.trim`,
    `Integer.parseInt` with its inverse `Integer.toString`,
    `String.equalsIgnoreCase` and `File.getName`. */
module JavaText {
  import opened Results

  /** The range of a Java `int`. */
  const MinInt: int := -0x8000_0000
  const MaxInt: int := 0x7FFF_FFFF

  /** `s.startsWith(prefix)` */
  predicate StartsWith(s: string, prefix: string) {
    |prefix| <= |s| && s[..|prefix|] == prefix
  }

  /** `s.endsWith(suffix)` */
  predicate EndsWith(s: string, suffix: string) {
    |suffix| <= |s| && s[|s| - |suffix|..] == suffix
  }

  /** `target` occurs somewhere inside `s`. */
  predicate Occurs(s: string, target: string) {
    exists i :: 0 <= i <= |s| && StartsWith(s[i..], target)
  }

  // ------------------------------------------------------------------
  // String.replace(CharSequence, CharSequence)
  // ------------------------------------------------------------------

  /** `s.replace(target, replacement)`: the occurrences of `target` found by a
      left-to-right scan, without overlap, are each replaced; an empty target
      puts the replacement before every character and at the end. */
  function Replace(s: string, target: string, replacement: string): string
    decreases |s|
  {
    if |target| == 0 then
      if |s| == 0 then replacement
      else replacement + [s[0]] + Replace(s[1..], target, replacement)
    else if |s| < |target| then s
    else if s[..|target|] == target then replacement + Replace(s[|target|..], target, replacement)
    else [s[0]] + Replace(s[1..], target, replacement)
  }

  /** Replacing a one-character target by text that does not contain that
      character leaves no occurrence of it. */
  lemma {:induction false} ReplaceRemovesChar(s: string, c: char, replacement: string)
    requires c !in replacement
    ensures c !in Replace(s, [c], replacement)
    decreases |s|
  {
    if |s| >= 1 {
      ReplaceRemovesChar(s[1..], c, replacement);
      assert s[..1] == [s[0]];
    }
  }

  /** A character found neither in the text nor in the replacement is not in
      the result. */
  lemma {:induction false} ReplaceKeepsAbsent(s: string, target: string, replacement: string, c: char)
    requires c !in s && c !in replacement
    ensures c !in Replace(s, target, replacement)
    decreases |s|
  {
    if |s| > 0 {
      assert c !in s[1..];
      if |target| > 0 && |s| >= |target| {
        assert c !in s[|target|..];
        ReplaceKeepsAbsent(s[|target|..], target, replacement, c);
      }
      ReplaceKeepsAbsent(s[1..], target, replacement, c);
    }
  }

  /** Text without an occurrence of the target is left as it is. */
  lemma {:induction false} ReplaceWithoutOccurrence(s: string, target: string, replacement: string)
    requires |target| > 0 && !Occurs(s, target)
    ensures Replace(s, target, replacement) == s
    decreases |s|
  {
    if |target| <= |s| {
      assert s[0..|target|] == s[..|target|];
      assert !StartsWith(s[0..], target);
      forall i | 0 <= i <= |s[1..]|
        ensures !StartsWith(s[1..][i..], target)
      {
        assert s[1..][i..] == s[i + 1..];
      }
      ReplaceWithoutOccurrence(s[1..], target, replacement);
      assert s == [s[0]] + s[1..];
    }
  }

  /** When the first character of the target does not recur inside it, an
      occurrence at the very end of the text cannot overlap an earlier one,
      so it is always the one replaced last. */
  lemma {:induction false} ReplaceTrailingTarget(u: string, target: string, replacement: string)
    requires |target| > 0
    requires forall d :: 0 < d < |target| ==> target[d] != target[0]
    ensures Replace(u + target, target, replacement) == Replace(u, target, replacement) + replacement
    decreases |u|
  {
    var s := u + target;
    var n := |target|;
    if 0 < |u| < n {
      // the final occurrence starts inside the first |target| characters
      assert s[..n][|u|] == target[0];
      assert target[|u|] != target[0];
    }
    if |u| == 0 {
      assert s == target;
      assert s[n..] == [];
    } else if s[..n] == target {
      assert u[..n] == target;
      assert s[n..] == u[n..] + target;
      ReplaceTrailingTarget(u[n..], target, replacement);
    } else {
      assert s[1..] == u[1..] + target;
      ReplaceTrailingTarget(u[1..], target, replacement);
      if |u| >= n {
        assert u[..n] == s[..n];
      } else {
        assert Replace(u[1..], target, replacement) == u[1..];
        assert u == [u[0]] + u[1..];
      }
    }
  }

  // ------------------------------------------------------------------
  // String.split(",", -1) and String.split(",")
  // ------------------------------------------------------------------

  /** `s.split(",", -1)`: every field between commas, the empty ones
      included; text without a comma is a single field. */
  function SplitAll(s: string): (fields: seq<string>)
    ensures |fields| >= 1
    ensures forall k :: 0 <= k < |fields| ==> ',' !in fields[k]
    decreases |s|
  {
    if |s| == 0 then [""]
    else if s[0] == ',' then [""] + SplitAll(s[1..])
    else
      var rest := SplitAll(s[1..]);
      [[s[0]] + rest[0]] + rest[1..]
  }

  /** The fields written out with a comma between each two. */
  function JoinFields(fields: seq<string>): string
    requires |fields| >= 1
    decreases |fields|
  {
    if |fields| == 1 then fields[0] else fields[0] + "," + JoinFields(fields[1..])
  }

  /** Splitting loses nothing: joining the fields gives the text back. */
  lemma {:induction false} JoinSplitAll(s: string)
    ensures JoinFields(SplitAll(s)) == s
    decreases |s|
  {
    if |s| > 0 {
      var rest := SplitAll(s[1..]);
      JoinSplitAll(s[1..]);
      if s[0] == ',' {
        assert SplitAll(s)[1..] == rest;
      } else {
        var fields := SplitAll(s);
        assert fields[1..] == rest[1..];
        if |rest| > 1 {
          assert JoinFields(rest) == rest[0] + "," + JoinFields(rest[1..]);
        }
      }
    }
  }

  /** A comma-free field followed by a comma is split off as it is. */
  lemma {:induction false} SplitAllLeadingField(field: string, rest: string)
    requires ',' !in field
    ensures SplitAll(field + "," + rest) == [field] + SplitAll(rest)
    decreases |field|
  {
    var s := field + "," + rest;
    if |field| == 0 {
      assert s[1..] == rest;
    } else {
      assert s[1..] == field[1..] + "," + rest;
      assert ',' !in field[1..];
      SplitAllLeadingField(field[1..], rest);
      assert [field[0]] + field[1..] == field;
    }
  }

  /** A comma-free text is a single field. */
  lemma {:induction false} SplitAllSingleField(field: string)
    requires ',' !in field
    ensures SplitAll(field) == [field]
    decreases |field|
  {
    if |field| > 0 {
      assert ',' !in field[1..];
      SplitAllSingleField(field[1..]);
      assert [field[0]] + field[1..] == field;
    }
  }

  /** Joining comma-free fields and splitting again gives the same fields. */
  lemma {:induction false} SplitAllJoinFields(fields: seq<string>)
    requires |fields| >= 1
    requires forall k :: 0 <= k < |fields| ==> ',' !in fields[k]
    ensures SplitAll(JoinFields(fields)) == fields
    decreases |fields|
  {
    if |fields| == 1 {
      SplitAllSingleField(fields[0]);
    } else {
      SplitAllJoinFields(fields[1..]);
      SplitAllLeadingField(fields[0], JoinFields(fields[1..]));
      assert [fields[0]] + fields[1..] == fields;
    }
  }

  /** What `split` with limit 0 does after splitting: trailing empty fields
      are removed, all of them. */
  function DropTrailingEmpty(fields: seq<string>): (kept: seq<string>)
    ensures kept <= fields
    ensures kept == [] || kept[|kept| - 1] != ""
    ensures forall k :: |kept| <= k < |fields| ==> fields[k] == ""
    decreases |fields|
  {
    if |fields| == 0 then []
    else if fields[|fields| - 1] == "" then DropTrailingEmpty(fields[..|fields| - 1])
    else fields
  }

  /** `s.split(",")`: a text without a comma is returned whole, even when it
      is empty; otherwise the fields with the trailing empty ones removed. */
  function Split(s: string): (fields: seq<string>)
    ensures ',' !in s ==> fields == [s]
    ensures ',' in s ==> fields <= SplitAll(s)
    ensures ',' in s ==> fields == [] || fields[|fields| - 1] != ""
    ensures ',' in s ==> forall k :: |fields| <= k < |SplitAll(s)| ==> SplitAll(s)[k] == ""
  {
    if ',' !in s then [s] else DropTrailingEmpty(SplitAll(s))
  }

  // ------------------------------------------------------------------
  // String.trim
  // ------------------------------------------------------------------

  /** The text without its leading characters at or below U+0020: the
      first loop of `trim`. */
  function TrimStart(s: string): string
    decreases |s|
  {
    if |s| > 0 && s[0] <= ' ' then TrimStart(s[1..]) else s
  }

  /** The text without its trailing characters at or below U+0020: the
      second loop of `trim`. */
  function TrimEnd(s: string): string
    decreases |s|
  {
    if |s| > 0 && s[|s| - 1] <= ' ' then TrimEnd(s[..|s| - 1]) else s
  }

  /** `s.trim()`: the text without its leading and trailing characters at
      or below U+0020. */
  function Trim(s: string): string {
    TrimEnd(TrimStart(s))
  }

  /** `TrimStart` cuts a prefix of such characters and stops at the first
      other one. */
  lemma {:induction false} TrimStartSpec(s: string)
    ensures |TrimStart(s)| <= |s| && TrimStart(s) == s[|s| - |TrimStart(s)|..]
    ensures forall k :: 0 <= k < |s| - |TrimStart(s)| ==> s[k] <= ' '
    ensures TrimStart(s) == [] || TrimStart(s)[0] > ' '
    decreases |s|
  {
    if |s| > 0 && s[0] <= ' ' {
      TrimStartSpec(s[1..]);
      var r := TrimStart(s[1..]);
      assert s[1..][|s| - 1 - |r|..] == s[|s| - |r|..];
      forall k | 0 <= k < |s| - |r| ensures s[k] <= ' ' {
        if k > 0 { assert s[k] == s[1..][k - 1]; }
      }
    }
  }

  /** `TrimEnd` cuts a suffix of such characters and stops at the last
      other one. */
  lemma {:induction false} TrimEndSpec(s: string)
    ensures |TrimEnd(s)| <= |s| && TrimEnd(s) == s[..|TrimEnd(s)|]
    ensures forall k :: |TrimEnd(s)| <= k < |s| ==> s[k] <= ' '
    ensures TrimEnd(s) == [] || TrimEnd(s)[|TrimEnd(s)| - 1] > ' '
    decreases |s|
  {
    if |s| > 0 && s[|s| - 1] <= ' ' {
      TrimEndSpec(s[..|s| - 1]);
      var r := TrimEnd(s[..|s| - 1]);
      assert s[..|s| - 1][..|r|] == s[..|r|];
      forall k | |r| <= k < |s| ensures s[k] <= ' ' {
        if k < |s| - 1 { assert s[k] == s[..|s| - 1][k]; }
      }
    }
  }

  /** The trimmed text neither starts nor ends with a character at or below
      U+0020, and it is a slice of the text with only such characters
      around it. */
  lemma TrimSpec(s: string)
    ensures Trim(s) == [] || (Trim(s)[0] > ' ' && Trim(s)[|Trim(s)| - 1] > ' ')
    ensures exists lo :: TrimmedAt(s, Trim(s), lo)
  {
    var t := TrimStart(s);
    var r := Trim(s);
    TrimStartSpec(s);
    TrimEndSpec(t);
    var lo := |s| - |t|;
    assert r == t[..|r|];
    assert t[..|r|] == s[lo..lo + |r|];
    forall k | lo + |r| <= k < |s| ensures s[k] <= ' ' {
      assert s[k] == t[k - lo];
    }
    assert TrimmedAt(s, r, lo);
  }

  /** `r` is the slice of `s` from `lo` on, and only characters at or below
      U+0020 lie outside it. */
  predicate TrimmedAt(s: string, r: string, lo: int) {
    && 0 <= lo <= |s| - |r|
    && r == s[lo..lo + |r|]
    && (forall k :: 0 <= k < lo ==> s[k] <= ' ')
    && (forall k :: lo + |r| <= k < |s| ==> s[k] <= ' ')
  }

  // ------------------------------------------------------------------
  // Integer.parseInt and Integer.toString
  // ------------------------------------------------------------------

  predicate IsDigit(c: char) {
    '0' <= c <= '9'
  }

  /** Every character of `s[lo..hi]` is a decimal digit (checked from the
      last one back). */
  predicate DigitsIn(s: string, lo: int, hi: int)
    requires 0 <= lo <= hi <= |s|
    decreases hi - lo
  {
    lo == hi || (IsDigit(s[hi - 1]) && DigitsIn(s, lo, hi - 1))
  }

  /** `DigitsIn` holds exactly when every character of the range is a digit. */
  lemma {:induction false} DigitsInEach(s: string, lo: int, hi: int)
    requires 0 <= lo <= hi <= |s|
    ensures DigitsIn(s, lo, hi) <==> forall k :: lo <= k < hi ==> IsDigit(s[k])
    decreases hi - lo
  {
    if lo < hi {
      DigitsInEach(s, lo, hi - 1);
    }
  }

  /** The value of the decimal digits `s[lo..hi]`, read most significant
      first. */
  function DigitsValue(s: string, lo: int, hi: int): nat
    requires 0 <= lo <= hi <= |s| && DigitsIn(s, lo, hi)
    decreases hi - lo
  {
    if lo == hi then 0
    else DigitsValue(s, lo, hi - 1) * 10 + (s[hi - 1] as int - '0' as int)
  }

  /** Two ranges with the same characters have the same digits and the
      same value. */
  lemma {:induction false} DigitsAgree(s: string, lo: int, t: string, lo2: int, len: nat)
    requires 0 <= lo && lo + len <= |s| && 0 <= lo2 && lo2 + len <= |t|
    requires s[lo..lo + len] == t[lo2..lo2 + len]
    ensures DigitsIn(s, lo, lo + len) == DigitsIn(t, lo2, lo2 + len)
    ensures DigitsIn(s, lo, lo + len) ==> DigitsValue(s, lo, lo + len) == DigitsValue(t, lo2, lo2 + len)
    decreases len
  {
    if len > 0 {
      assert s[lo..lo + len][len - 1] == t[lo2..lo2 + len][len - 1];
      assert s[lo..lo + len - 1] == s[lo..lo + len][..len - 1];
      assert t[lo2..lo2 + len - 1] == t[lo2..lo2 + len][..len - 1];
      DigitsAgree(s, lo, t, lo2, len - 1);
    }
  }

  /** `Integer.parseInt(s)`: an optional `+` or `-`, then one or more decimal
      digits, and the value must fit in an `int`; anything else is a
      `NumberFormatException`, modelled as `None`. */
  function ParseInt(s: string): (r: Option<int>)
    ensures r.Some? ==> MinInt <= r.value <= MaxInt
    ensures r.Some? ==> |s| > 0 && (IsDigit(s[0]) || s[0] == '+' || s[0] == '-')
  {
    var start := if |s| > 0 && (s[0] == '-' || s[0] == '+') then 1 else 0;
    if start == |s| || !DigitsIn(s, start, |s|) then None
    else
      DigitsInEach(s, start, |s|);
      var magnitude: int := DigitsValue(s, start, |s|);
      var value := if start == 1 && s[0] == '-' then -magnitude else magnitude;
      if MinInt <= value <= MaxInt then Some(value) else None
  }

  /** The decimal digits of `n`, without leading zeros. */
  function NatToString(n: nat): (s: string)
    ensures |s| >= 1 && DigitsIn(s, 0, |s|) && IsDigit(s[0])
    ensures |s| > 1 ==> s[0] != '0'
    decreases n
  {
    var last := [(n % 10 + '0' as int) as char];
    if n < 10 then last
    else
      var front := NatToString(n / 10);
      assert (front + last)[0..|front|] == front[0..|front|];
      DigitsAgree(front + last, 0, front, 0, |front|);
      front + last
  }

  /** `Integer.toString(n)`, which is also what string concatenation with an
      `int` writes. */
  function IntToString(n: int): string {
    if n < 0 then "-" + NatToString(-n) else NatToString(n)
  }

  /** The text of an `int` is never empty and ends in a digit. */
  lemma IntToStringEndsInDigit(n: int)
    ensures |IntToString(n)| > 0 && IsDigit(IntToString(n)[|IntToString(n)| - 1])
  {
    var digits := NatToString(if n < 0 then -n else n);
    assert IntToString(n)[|IntToString(n)| - 1] == digits[|digits| - 1];
  }

  /** Reading back the digits of `n` gives `n`. */
  lemma {:induction false} DigitsValueOfNatToString(n: nat)
    ensures DigitsValue(NatToString(n), 0, |NatToString(n)|) == n
    decreases n
  {
    var s := NatToString(n);
    if n >= 10 {
      var front := NatToString(n / 10);
      DigitsValueOfNatToString(n / 10);
      assert s[0..|front|] == front[0..|front|];
      DigitsAgree(s, 0, front, 0, |front|);
    }
  }

  /** `Integer.parseInt(Integer.toString(n)) == n` for every `int`. */
  lemma ParseIntToString(n: int)
    requires MinInt <= n <= MaxInt
    ensures ParseInt(IntToString(n)) == Some(n)
  {
    var s := IntToString(n);
    if n < 0 {
      var digits := NatToString(-n);
      DigitsValueOfNatToString(-n);
      assert s[1..1 + |digits|] == digits[0..|digits|];
      DigitsAgree(s, 1, digits, 0, |digits|);
    } else {
      DigitsValueOfNatToString(n);
    }
  }

  // ------------------------------------------------------------------
  // String.equalsIgnoreCase
  // ------------------------------------------------------------------

  /** Lower-casing of the letters `A`..`Z`; other characters are unchanged. */
  function ToLowerAscii(c: char): char {
    if 'A' <= c <= 'Z' then (c as int + 32) as char else c
  }

  /** `a.equalsIgnoreCase(b)`, with the case folding of ASCII letters. */
  predicate EqualsIgnoreCase(a: string, b: string) {
    |a| == |b| && forall k :: 0 <= k < |a| ==> ToLowerAscii(a[k]) == ToLowerAscii(b[k])
  }

  // ------------------------------------------------------------------
  // File.getName on a Unix path
  // ------------------------------------------------------------------

  /** The characters after the last `/` (the whole text when there is none). */
  function LastSegment(path: string): (name: string)
    ensures '/' !in name
    ensures EndsWith(path, name)
    ensures |name| < |path| ==> path[|path| - |name| - 1] == '/'
    decreases |path|
  {
    if |path| == 0 || path[|path| - 1] == '/' then ""
    else LastSegment(path[..|path| - 1]) + [path[|path| - 1]]
  }

  /** `new File(path).getName()`: `File` drops trailing separators when it
      normalises the path, and the name is what follows the last `/`. */
  function FileName(path: string): (name: string)
    ensures '/' !in name
    ensures |path| == 0 || path[|path| - 1] != '/' ==>
              EndsWith(path, name) && (|name| == |path| || path[|path| - |name| - 1] == '/')
    decreases |path|
  {
    if |path| > 0 && path[|path| - 1] == '/' then FileName(path[..|path| - 1])
    else LastSegment(path)
  }

  /** The name of a child of a directory: `new File(dir, name).getName()`. */
  lemma {:induction false} FileNameOfChild(dir: string, name: string)
    requires |name| > 0 && '/' !in name
    ensures FileName(dir + "/" + name) == name
  {
    LastSegmentOfChild(dir, name);
  }

  lemma {:induction false} LastSegmentOfChild(dir: string, name: string)
    requires '/' !in name
    ensures LastSegment(dir + "/" + name) == name
    decreases |name|
  {
    var path := dir + "/" + name;
    if |name| > 0 {
      var front := name[..|name| - 1];
      assert path[..|path| - 1] == dir + "/" + front;
      assert path[|path| - 1] == name[|name| - 1];
      LastSegmentOfChild(dir, front);
      assert name == front + [name[|name| - 1]];
    }
  }

  /** A path ending in a slash-free suffix has a file name ending in it. */
  lemma FileNameKeepsSuffix(path: string, suffix: string)
    requires |suffix| > 0 && '/' !in suffix
    requires EndsWith(path, suffix)
    ensures EndsWith(FileName(path), suffix)
  {
    var name := FileName(path);
    assert path[|path| - 1] == suffix[|suffix| - 1];
    assert name[|name| - |suffix|..] == path[|path| - |suffix|..];
  }
}
