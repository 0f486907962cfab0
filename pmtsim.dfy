/** The name handling of PMTSim: the scanner that pulls signed decimal numbers out of a
    solid name, the choice of the Z cut from the first of them, and the reduction of a
    "Ham_" name to the name the PMT manager knows. A C string is modelled by its
    characters before the terminating NUL. */
module PmtSim {
  import opened Csg

  predicate IsDigit(c: char) { '0' <= c <= '9' }

  /** The characters of a C string before its terminating NUL: none of them is NUL. */
  predicate CString(s: string) {
    forall k :: 0 <= k < |s| ==> s[k] != '\0'
  }

  predicate IsSign(c: char) { c == '+' || c == '-' }

  /** The characters at which the scanner hands over to strtol. */
  predicate IsNumberStart(c: char) { IsDigit(c) || IsSign(c) }

  function DigitValue(c: char): nat
    requires IsDigit(c)
  {
    (c as int - '0' as int) as nat
  }

  /** The value of a run of decimal digits, most significant first. */
  function DigitsValue(ds: string): nat
    requires forall k :: 0 <= k < |ds| ==> IsDigit(ds[k])
  {
    if |ds| == 0 then 0 else 10 * DigitsValue(ds[..|ds| - 1]) + DigitValue(ds[|ds| - 1])
  }

  /** The end of the run of digits that starts at j. */
  function DigitEnd(s: string, j: nat): (e: nat)
    requires j <= |s|
    ensures j <= e <= |s|
    ensures forall k :: j <= k < e ==> IsDigit(s[k])
    ensures e < |s| ==> !IsDigit(s[e])
    decreases |s| - j
  {
    if j < |s| && IsDigit(s[j]) then DigitEnd(s, j + 1) else j
  }

  /** strtol(s + i, &end, 10) where s[i] is a digit or a sign: an optional sign, then
      the longest run of digits. With no digit after the sign nothing is converted: the
      value is 0 and the end stays at i. */
  function Strtol(s: string, i: nat): (r: (int, nat))
    requires i < |s| && IsNumberStart(s[i])
    ensures r.1 == i <==> IsSign(s[i]) && !(i + 1 < |s| && IsDigit(s[i + 1]))
    ensures r.1 == i ==> r.0 == 0
    ensures r.1 != i ==> i < r.1 <= |s| && (r.1 < |s| ==> !IsDigit(s[r.1]))
    ensures r.1 != i ==> forall k :: i < k < r.1 ==> IsDigit(s[k])
  {
    var j := if IsSign(s[i]) then i + 1 else i;
    var e := DigitEnd(s, j);
    if e == j then (0, i)
    else
      var m: int := DigitsValue(s[j..e]);
      (if s[i] == '-' then -m else m, e)
  }

  /** What Extract appends when scanning from i: a value for each run that starts at a
      digit or a sign, in order, every other character skipped; None when the scan
      reaches a sign that strtol cannot convert, where the loop of Extract never ends. */
  function Scan(s: string, i: nat): Option<seq<int>>
    requires i <= |s|
    decreases |s| - i
  {
    if i == |s| then Some([])
    else if IsNumberStart(s[i]) then
      var (v, e) := Strtol(s, i);
      if e == i then None
      else
        match Scan(s, e)
        case None => None
        case Some(rest) => Some([v] + rest)
    else Scan(s, i + 1)
  }

  /** A sign at k that no digit follows. */
  predicate DanglingSign(s: string, k: int) {
    0 <= k < |s| && IsSign(s[k]) && !(k + 1 < |s| && IsDigit(s[k + 1]))
  }

  /** The names on which Extract returns: no sign without a digit after it. */
  predicate Terminates(s: string) {
    forall k :: 0 <= k < |s| ==> !DanglingSign(s, k)
  }

  /** The scan from i stalls exactly when a sign without a digit after it lies ahead:
      every sign the scan meets starts a number, since a number continues with digits
      only. */
  lemma {:induction false} StallsIffDanglingSign(s: string, i: nat)
    requires i <= |s|
    ensures Scan(s, i).None? <==> exists k :: i <= k < |s| && DanglingSign(s, k)
    decreases |s| - i
  {
    if i < |s| {
      if IsNumberStart(s[i]) {
        var (v, e) := Strtol(s, i);
        if e != i {
          StallsIffDanglingSign(s, e);
          assert forall k :: i <= k < e ==> !DanglingSign(s, k);
        } else {
          assert DanglingSign(s, i);
        }
      } else {
        StallsIffDanglingSign(s, i + 1);
        assert !DanglingSign(s, i);
      }
    }
  }

  /** The values Extract appends for a name it returns on. */
  function Values(s: string): seq<int>
    requires Terminates(s)
  {
    StallsIffDanglingSign(s, 0);
    Scan(s, 0).value
  }

  /** Extract: append to vals the values of the digit and sign runs of s, in order. The
      loop advances by strtol's end pointer, which does not move at a sign with no digit
      after it; the loop ends only on names without such a sign. The name is read only. */
  method Extract(vals: seq<int>, s: string) returns (out: seq<int>)
    requires CString(s) && Terminates(s)
    ensures out == vals + Values(s)
    ensures out[..|vals|] == vals
  {
    StallsIffDanglingSign(s, 0);
    var p := 0;
    out := vals;
    while p < |s|
      invariant p <= |s|
      invariant Scan(s, p).Some?
      invariant out + Scan(s, p).value == vals + Scan(s, 0).value
      decreases |s| - p
    {
      if IsNumberStart(s[p]) {
        var (v, e) := Strtol(s, p);
        assert Scan(s, p).value == [v] + Scan(s, e).value;
        out := out + [v];
        p := e;
      } else {
        p := p + 1;
      }
    }
    assert out == vals + Scan(s, 0).value;
  }

  /** A sign that ends the name, or that a letter follows, stalls the scan. */
  lemma DanglingSignStalls(head: string, sign: char, tail: string)
    requires IsSign(sign) && (|tail| == 0 || !IsDigit(tail[0]))
    ensures !Terminates(head + [sign] + tail)
  {
    var s := head + [sign] + tail;
    assert DanglingSign(s, |head|);
  }

  /** The scan as evidently intended: a sign that strtol cannot convert is stepped over
      like any other character, so every name is scanned to its end. */
  function ScanAll(s: string, i: nat): seq<int>
    requires i <= |s|
    decreases |s| - i
  {
    if i == |s| then []
    else if IsNumberStart(s[i]) && Strtol(s, i).1 != i then
      var (v, e) := Strtol(s, i);
      [v] + ScanAll(s, e)
    else ScanAll(s, i + 1)
  }

  /** Wherever the scan as written ends, the intended scan yields the same values. */
  lemma {:induction false} ScanAllAgrees(s: string, i: nat)
    requires i <= |s| && Scan(s, i).Some?
    ensures ScanAll(s, i) == Scan(s, i).value
    decreases |s| - i
  {
    if i < |s| {
      if IsNumberStart(s[i]) {
        ScanAllAgrees(s, Strtol(s, i).1);
      } else {
        ScanAllAgrees(s, i + 1);
      }
    }
  }

  /** The intended scan yields nothing for a sign that no digit follows, and goes on
      after it. */
  lemma SkipsDanglingSign(head: string, sign: char, tail: string)
    requires IsSign(sign) && (|tail| == 0 || !IsDigit(tail[0]))
    ensures ScanAll(head + [sign] + tail, |head|) == ScanAll(head + [sign] + tail, |head| + 1)
  {
    var s := head + [sign] + tail;
    assert s[|head|] == sign;
    assert DanglingSign(s, |head|);
  }

  /** Extract as evidently intended: the same loop, except that a sign strtol does not
      convert moves the scan on by one. It returns on every name, and agrees with
      Extract on every name that Extract returns on. */
  method ExtractAll(vals: seq<int>, s: string) returns (out: seq<int>)
    requires CString(s)
    ensures out == vals + ScanAll(s, 0)
    ensures Terminates(s) ==> out == vals + Values(s)
  {
    var p := 0;
    out := vals;
    while p < |s|
      invariant p <= |s|
      invariant out + ScanAll(s, p) == vals + ScanAll(s, 0)
      decreases |s| - p
    {
      if IsNumberStart(s[p]) && Strtol(s, p).1 != p {
        var (v, e) := Strtol(s, p);
        out := out + [v];
        p := e;
      } else {
        p := p + 1;
      }
    }
    assert out == vals + ScanAll(s, 0);
    if Terminates(s) {
      StallsIffDanglingSign(s, 0);
      ScanAllAgrees(s, 0);
    }
  }

  /** The zcut GetMakerSolid takes: the first value extracted from the name, or none,
      in which case the solid is made without a cut. */
  method GetMakerZCut(name: string) returns (zcut: Option<int>)
    requires CString(name) && Terminates(name)
    ensures zcut.Some? <==> exists k :: 0 <= k < |name| && IsNumberStart(name[k])
    ensures zcut.Some? ==> zcut.value == Strtol(name, FirstStart(name, 0)).0
  {
    var vals := Extract([], name);
    StallsIffDanglingSign(name, 0);
    FirstValue(name, 0);
    if |vals| > 0 {
      zcut := Some(vals[0]);
    } else {
      zcut := None;
    }
  }

  /** The first index from i whose character starts a number, or |s|. */
  function FirstStart(s: string, i: nat): (j: nat)
    requires i <= |s|
    ensures i <= j <= |s|
    ensures forall k :: i <= k < j ==> !IsNumberStart(s[k])
    ensures j < |s| ==> IsNumberStart(s[j])
    decreases |s| - i
  {
    if i == |s| || IsNumberStart(s[i]) then i else FirstStart(s, i + 1)
  }

  /** A scan that does not stall yields a value exactly when a number starts ahead,
      and its first value is the one strtol converts at the first such start. */
  lemma {:induction false} FirstValue(s: string, i: nat)
    requires i <= |s| && Scan(s, i).Some?
    ensures |Scan(s, i).value| > 0 <==> exists k :: i <= k < |s| && IsNumberStart(s[k])
    ensures |Scan(s, i).value| > 0 ==> Scan(s, i).value[0] == Strtol(s, FirstStart(s, i)).0
    decreases |s| - i
  {
    if i < |s| && !IsNumberStart(s[i]) {
      FirstValue(s, i + 1);
      assert forall k :: i <= k < |s| && IsNumberStart(s[k]) ==> i + 1 <= k;
    } else if i < |s| {
      assert IsNumberStart(s[i]);
    }
  }

  /** The decimal digits of n, most significant first. */
  function Decimal(n: nat): (ds: string)
    ensures |ds| > 0 && forall k :: 0 <= k < |ds| ==> IsDigit(ds[k])
  {
    if n < 10 then ['0' + n as char] else Decimal(n / 10) + ['0' + (n % 10) as char]
  }

  /** A value written out as strtol reads it back: a minus sign for a negative one. */
  function Signed(v: int): string {
    if v < 0 then "-" + Decimal(-v) else Decimal(v)
  }

  /** Reading a number's own digits gives the number back. */
  lemma {:induction false} DecimalValue(n: nat)
    ensures DigitsValue(Decimal(n)) == n
  {
    if n >= 10 {
      DecimalValue(n / 10);
      var ds := Decimal(n);
      assert ds[..|ds| - 1] == Decimal(n / 10);
    }
  }

  /** A name built by writing each value followed by an underscore. */
  function Render(vs: seq<int>): string {
    if |vs| == 0 then "" else Signed(vs[0]) + "_" + Render(vs[1..])
  }

  /** The digits of n written at j and ended by a non-digit are read back as n. */
  lemma ReadsDecimal(s: string, j: nat, n: nat)
    requires j + |Decimal(n)| < |s| && s[j..j + |Decimal(n)|] == Decimal(n)
    requires !IsDigit(s[j + |Decimal(n)|])
    ensures DigitEnd(s, j) == j + |Decimal(n)|
    ensures DigitsValue(s[j..DigitEnd(s, j)]) == n
  {
    var e := j + |Decimal(n)|;
    forall k | j <= k < e
      ensures IsDigit(s[k])
    {
      assert s[k] == s[j..e][k - j];
    }
    DigitEndSpans(s, j, e);
    DecimalValue(n);
  }

  /** strtol reads a written value back, and stops at the underscore after it. */
  lemma ReadsSigned(v: int, rest: string)
    ensures var s := Signed(v) + "_" + rest;
      IsNumberStart(s[0]) && Strtol(s, 0) == (v, |Signed(v)|)
  {
    var s := Signed(v) + "_" + rest;
    if v < 0 {
      ReadsNegative(-v, rest);
    } else {
      ReadsNatural(v, rest);
    }
  }

  lemma ReadsNatural(n: nat, rest: string)
    ensures var s := Decimal(n) + "_" + rest;
      IsNumberStart(s[0]) && Strtol(s, 0) == (n, |Decimal(n)|)
  {
    var d := Decimal(n);
    var s := d + "_" + rest;
    assert s[0] == d[0] && !IsSign(s[0]);
    assert s[0..|d|] == d && s[|d|] == '_';
    ReadsDecimal(s, 0, n);
  }

  lemma ReadsNegative(n: nat, rest: string)
    requires n > 0
    ensures var s := "-" + Decimal(n) + "_" + rest;
      IsNumberStart(s[0]) && Strtol(s, 0) == (-(n as int), 1 + |Decimal(n)|)
  {
    var d := Decimal(n);
    var s := "-" + d + "_" + rest;
    assert s[0] == '-';
    assert s[1..1 + |d|] == d && s[1 + |d|] == '_';
    ReadsDecimal(s, 1, n);
  }

  /** A run of digits from j that a non-digit ends at e is the run DigitEnd finds. */
  lemma {:induction false} DigitEndSpans(s: string, j: nat, e: nat)
    requires j <= e < |s| && !IsDigit(s[e])
    requires forall k :: j <= k < e ==> IsDigit(s[k])
    ensures DigitEnd(s, j) == e
    decreases e - j
  {
    if j < e {
      DigitEndSpans(s, j + 1, e);
    }
  }

  /** Scanning from a shared position only looks at what lies ahead. */
  lemma {:induction false} ScanSuffix(t: string, s: string, i: nat)
    requires i <= |s|
    ensures Scan(t + s, |t| + i) == Scan(s, i)
    decreases |s| - i
  {
    var u := t + s;
    if i < |s| {
      assert u[|t| + i] == s[i];
      if IsNumberStart(s[i]) {
        StrtolShift(t, s, i);
        var e := Strtol(s, i).1;
        if e != i {
          ScanSuffix(t, s, e);
        }
      } else {
        ScanSuffix(t, s, i + 1);
      }
    }
  }

  /** strtol only looks at what lies ahead of its start. */
  lemma StrtolShift(t: string, s: string, i: nat)
    requires i < |s| && IsNumberStart(s[i])
    ensures (t + s)[|t| + i] == s[i]
    ensures Strtol(t + s, |t| + i) == (Strtol(s, i).0, |t| + Strtol(s, i).1)
  {
    var u := t + s;
    assert u[|t| + i] == s[i];
    var j := if IsSign(s[i]) then i + 1 else i;
    DigitEndShift(t, s, j);
    var e := DigitEnd(s, j);
    if e != j {
      assert u[|t| + j..|t| + e] == s[j..e];
    }
  }

  lemma {:induction false} DigitEndShift(t: string, s: string, j: nat)
    requires j <= |s|
    ensures DigitEnd(t + s, |t| + j) == |t| + DigitEnd(s, j)
    decreases |s| - j
  {
    if j < |s| {
      assert (t + s)[|t| + j] == s[j];
      DigitEndShift(t, s, j + 1);
    }
  }

  /** Characters that start no number are skipped. */
  lemma {:induction false} SkipsText(t: string, s: string, i: nat)
    requires i <= |t| && forall k :: 0 <= k < |t| ==> !IsNumberStart(t[k])
    ensures Scan(t + s, i) == Scan(s, 0)
    decreases |t| - i
  {
    if i < |t| {
      assert (t + s)[i] == t[i];
      SkipsText(t, s, i + 1);
    } else {
      ScanSuffix(t, s, 0);
    }
  }

  /** Round trip: the values written out, each followed by an underscore, and put after
      any text without digits or signs, are read back by Extract, all of them and in
      order. */
  lemma {:induction false} ExtractReadsRendered(text: string, vs: seq<int>)
    requires forall k :: 0 <= k < |text| ==> !IsNumberStart(text[k])
    ensures Scan(text + Render(vs), 0) == Some(vs)
    ensures Terminates(text + Render(vs))
  {
    SkipsText(text, Render(vs), 0);
    RenderScans(vs);
    StallsIffDanglingSign(text + Render(vs), 0);
  }

  lemma {:induction false} RenderScans(vs: seq<int>)
    ensures Scan(Render(vs), 0) == Some(vs)
    decreases |vs|
  {
    if |vs| > 0 {
      RenderScans(vs[1..]);
      ScansWrittenValue(vs[0], Render(vs[1..]));
      assert [vs[0]] + vs[1..] == vs;
    }
  }

  /** A written value and its underscore are read as that value, and the scan goes on
      with what follows. */
  lemma ScansWrittenValue(v: int, rest: string)
    requires Scan(rest, 0).Some?
    ensures Scan(Signed(v) + "_" + rest, 0) == Some([v] + Scan(rest, 0).value)
  {
    var head := Signed(v);
    var s := head + "_" + rest;
    ReadsSigned(v, rest);
    assert s == (head + "_") + rest;
    ScanSuffix(head + "_", rest, 0);
    assert Scan(s, |head|) == Scan(rest, 0) by {
      assert s[|head|] == '_';
      assert Scan(s, |head|) == Scan(s, |head| + 1);
    }
  }

  /** pattern occurs in name at k. */
  predicate OccursAt(name: string, pattern: string, k: int) {
    0 <= k <= |name| - |pattern| && name[k..k + |pattern|] == pattern
  }

  /** True when pattern occurs in name, as strstr finds it. */
  predicate Contains(name: string, pattern: string) {
    exists k | 0 <= k <= |name| - |pattern| :: OccursAt(name, pattern, k)
  }

  const HamPrefix: string := "Ham_"

  /** getSolidPfx as written: the first four characters are dropped whenever "Ham_"
      occurs anywhere in the name, not only at its head. */
  function RelNameAsWritten(name: string): (rel: string)
    ensures Contains(name, HamPrefix) ==> |name| >= 4 && rel == name[4..]
    ensures !Contains(name, HamPrefix) ==> rel == name
  {
    if Contains(name, HamPrefix) then name[|HamPrefix|..] else name
  }

  /** A name that carries "Ham_" after other text loses its own first four characters
      instead, and the name looked up still carries the prefix. */
  lemma RelNameAsWrittenCounterexample()
    ensures RelNameAsWritten("PMT_Ham_body") == "Ham_body"
    ensures RelName("PMT_Ham_body") == "PMT_Ham_body"
  {
    assert OccursAt("PMT_Ham_body", HamPrefix, 4);
    assert "PMT_Ham_body"[..4] != HamPrefix by { assert "PMT_Ham_body"[0] == 'P'; }
  }

  /** getSolidPfx as intended by its starts_with_pfx flag: "Ham_" is dropped only from
      the head of the name. */
  function RelName(name: string): (rel: string)
    ensures |name| >= 4 && name[..4] == HamPrefix ==> rel == name[4..]
    ensures !(|name| >= 4 && name[..4] == HamPrefix) ==> rel == name
  {
    if |name| >= |HamPrefix| && name[..|HamPrefix|] == HamPrefix then name[|HamPrefix|..] else name
  }

  /** The intended reduction undoes the prefix and changes no other name. */
  lemma RelNameStripsPrefix(rest: string, name: string)
    ensures RelName(HamPrefix + rest) == rest
    ensures (forall k :: 0 <= k < |name| ==> name[k] != '_') ==> RelName(name) == name
  {
    assert (HamPrefix + rest)[..4] == HamPrefix;
    assert (HamPrefix + rest)[4..] == rest;
    if |name| >= 4 && name[..4] == HamPrefix {
      assert name[3] == '_';
    }
  }

  /** The two agree on every name that does not carry "Ham_" after its head. */
  lemma {:induction false} RelNamesAgree(name: string)
    requires Contains(name, HamPrefix) ==> name[..4] == HamPrefix
    ensures RelNameAsWritten(name) == RelName(name)
  {
    if |name| >= 4 && name[..4] == HamPrefix {
      assert OccursAt(name, HamPrefix, 0);
    }
  }
}
