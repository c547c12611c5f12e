/** The parts of Go's `strings` package that the modelled code uses, on
    `seq<char>`. Case mapping is ASCII only. */
module Text {

  predicate IsDigit(c: char) { '0' <= c <= '9' }

  /** Go's `unicode.IsSpace`, which `strings.TrimSpace` uses. */
  predicate IsSpace(c: char) {
    || c == ' ' || '\t' <= c <= '\r'
    || c == '\U{85}' || c == '\U{A0}' || c == '\U{1680}'
    || '\U{2000}' <= c <= '\U{200A}'
    || c == '\U{2028}' || c == '\U{2029}' || c == '\U{202F}' || c == '\U{205F}' || c == '\U{3000}'
  }

  function LowerChar(c: char): (r: char)
    ensures !('A' <= r <= 'Z')
    ensures !('A' <= c <= 'Z') ==> r == c
    ensures 'A' <= c <= 'Z' ==> r as int == c as int + 32
  {
    if 'A' <= c <= 'Z' then (c as int + 32) as char else c
  }

  /** `strings.ToLower`, restricted to ASCII letters. */
  function ToLower(s: string): (r: string)
    ensures |r| == |s|
    ensures forall i :: 0 <= i < |s| ==> r[i] == LowerChar(s[i])
  {
    seq(|s|, i requires 0 <= i < |s| => LowerChar(s[i]))
  }

  predicate HasPrefix(s: string, prefix: string) {
    |prefix| <= |s| && s[..|prefix|] == prefix
  }

  /** `strings.TrimPrefix`: removes one copy of `prefix`, if present. */
  function TrimPrefix(s: string, prefix: string): (r: string)
    ensures HasPrefix(s, prefix) ==> prefix + r == s
    ensures !HasPrefix(s, prefix) ==> r == s
  {
    if HasPrefix(s, prefix) then s[|prefix|..] else s
  }

  /** `strings.Contains`. */
  predicate Contains(s: string, sub: string)
    decreases |s|
  {
    HasPrefix(s, sub) || (s != [] && Contains(s[1..], sub))
  }

  /** The cut sets the modelled code trims with: Unicode white space
      (`strings.TrimSpace`) or a single character (`strings.Trim(s, "x")`). */
  datatype Cutset = Spaces | Only(c: char)

  predicate Cuts(cut: Cutset, c: char) {
    match cut
    case Spaces => IsSpace(c)
    case Only(x) => c == x
  }

  /** `strings.TrimLeft`: drops the longest prefix made of cut characters. */
  function TrimLeft(s: string, cut: Cutset): (r: string)
    ensures |r| <= |s| && r == s[|s| - |r|..]
    ensures r != [] ==> !Cuts(cut, r[0])
    ensures forall i :: 0 <= i < |s| - |r| ==> Cuts(cut, s[i])
    decreases |s|
  {
    if s != [] && Cuts(cut, s[0]) then TrimLeft(s[1..], cut) else s
  }

  /** TrimLeft drops exactly a leading run of cut characters. */
  lemma {:induction false} TrimLeftRun(d: string, v: string, cut: Cutset)
    requires forall i :: 0 <= i < |d| ==> Cuts(cut, d[i])
    requires v == [] || !Cuts(cut, v[0])
    ensures TrimLeft(d + v, cut) == v
    decreases |d|
  {
    if d == [] {
      assert d + v == v;
    } else {
      assert (d + v)[1..] == d[1..] + v;
      TrimLeftRun(d[1..], v, cut);
    }
  }

  /** A string that ends with a kept character shields what follows it from
      TrimLeft. */
  lemma {:induction false} TrimLeftAppend(a: string, b: string, cut: Cutset)
    requires a != [] && !Cuts(cut, a[|a| - 1])
    ensures TrimLeft(a + b, cut) == TrimLeft(a, cut) + b
    decreases |a|
  {
    assert (a + b)[0] == a[0];
    if Cuts(cut, a[0]) {
      assert (a + b)[1..] == a[1..] + b;
      TrimLeftAppend(a[1..], b, cut);
      assert TrimLeft(a + b, cut) == TrimLeft(a[1..] + b, cut);
    } else {
      assert TrimLeft(a + b, cut) == a + b;
    }
  }

  /** `strings.TrimRight`: drops the longest suffix made of cut characters. */
  function TrimRight(s: string, cut: Cutset): (r: string)
    ensures |r| <= |s| && r == s[..|r|]
    ensures r != [] ==> !Cuts(cut, r[|r| - 1])
    ensures forall i :: |r| <= i < |s| ==> Cuts(cut, s[i])
    decreases |s|
  {
    if s != [] && Cuts(cut, s[|s| - 1]) then TrimRight(s[..|s| - 1], cut) else s
  }

  /** `strings.Trim` with a cut set: the slice left once the cut characters
      at both ends are dropped. */
  function Trim(s: string, cut: Cutset): (r: string)
    ensures |r| <= |s|
    ensures r != [] ==> !Cuts(cut, r[0]) && !Cuts(cut, r[|r| - 1])
    ensures var i := |s| - |TrimLeft(s, cut)|;
      && i + |r| <= |s| && r == s[i..i + |r|]
      && (forall k :: 0 <= k < i ==> Cuts(cut, s[k]))
      && (forall k :: i + |r| <= k < |s| ==> Cuts(cut, s[k]))
  {
    var l := TrimLeft(s, cut);
    var r := TrimRight(l, cut);
    InnerSlice(s, l, r, cut);
    assert r != [] ==> r[0] == l[0];
    r
  }

  /** A prefix `r` of a suffix `l` of `s` is a slice of `s`, and what `l`
      has after `r` is what `s` has after it. */
  lemma InnerSlice(s: string, l: string, r: string, cut: Cutset)
    requires |l| <= |s| && l == s[|s| - |l|..]
    requires |r| <= |l| && r == l[..|r|]
    requires forall k :: |r| <= k < |l| ==> Cuts(cut, l[k])
    ensures r == s[|s| - |l|..|s| - |l| + |r|]
    ensures forall k :: |s| - |l| + |r| <= k < |s| ==> Cuts(cut, s[k])
  {
    var i := |s| - |l|;
    assert forall k :: i <= k < |s| ==> s[k] == l[k - i];
  }

  function TrimSpace(s: string): string {
    Trim(s, Spaces)
  }

  lemma TrimUntouched(s: string, cut: Cutset)
    requires s != [] ==> !Cuts(cut, s[0]) && !Cuts(cut, s[|s| - 1])
    ensures Trim(s, cut) == s
  {
  }

  /** A cut character appended to an untouched string is trimmed away. */
  lemma TrimAppendedCut(s: string, c: char, cut: Cutset)
    requires Cuts(cut, c)
    requires s != [] ==> !Cuts(cut, s[0]) && !Cuts(cut, s[|s| - 1])
    ensures Trim(s + [c], cut) == s
  {
    var t := s + [c];
    if s == [] {
      assert TrimLeft(t, cut) == [];
    } else {
      assert TrimLeft(t, cut) == t;
      assert t[..|t| - 1] == s;
      assert TrimRight(t, cut) == TrimRight(s, cut) == s;
    }
  }

  /** A newline after text that TrimSpace leaves alone is trimmed away. */
  lemma TrimSpaceNewline(s: string)
    requires TrimSpace(s) == s
    ensures TrimSpace(s + "\n") == s
  {
    assert s != [] ==> !Cuts(Spaces, s[0]) && !Cuts(Spaces, s[|s| - 1]);
    TrimAppendedCut(s, '\n', Spaces);
  }

  /** `strings.Join`. */
  function Join(parts: seq<string>, sep: char): string
    decreases |parts|
  {
    if |parts| == 0 then ""
    else if |parts| == 1 then parts[0]
    else parts[0] + [sep] + Join(parts[1..], sep)
  }

  /** `strings.Split` with a one-character separator: the pieces between
      separators, so that there is always at least one piece and joining them
      back gives the input. */
  function Split(s: string, sep: char): (parts: seq<string>)
    ensures |parts| > 0
    ensures forall i :: 0 <= i < |parts| ==> sep !in parts[i]
    ensures Join(parts, sep) == s
    decreases |s|
  {
    if s == [] then [""]
    else
      var rest := Split(s[1..], sep);
      if s[0] == sep then
        [""] + rest
      else
        [[s[0]] + rest[0]] + rest[1..]
  }

  /** The piece before the first separator, which is what Go code reads as
      `strings.SplitN(s, sep, 2)[0]`. */
  function BeforeFirst(s: string, sep: char): (r: string)
    ensures |r| <= |s| && r == s[..|r|]
    ensures sep !in r
    ensures |r| < |s| ==> s[|r|] == sep
    decreases |s|
  {
    if s == [] || s[0] == sep then "" else [s[0]] + BeforeFirst(s[1..], sep)
  }

  /** Joining pieces that hold no separator and splitting the result gives
      the pieces back: Split and Join are inverse. */
  lemma {:induction false} SplitJoin(parts: seq<string>, sep: char)
    requires |parts| > 0
    requires forall i :: 0 <= i < |parts| ==> sep !in parts[i]
    ensures Split(Join(parts, sep), sep) == parts
    decreases |parts|
  {
    if |parts| == 1 {
      SplitWithoutSeparator(parts[0], sep);
    } else {
      SplitAfterPiece(parts[0], Join(parts[1..], sep), sep);
      SplitJoin(parts[1..], sep);
    }
  }

  lemma {:induction false} SplitWithoutSeparator(w: string, sep: char)
    requires sep !in w
    ensures Split(w, sep) == [w]
    decreases |w|
  {
    if w != [] {
      SplitWithoutSeparator(w[1..], sep);
    }
  }

  lemma {:induction false} SplitAfterPiece(w: string, s: string, sep: char)
    requires sep !in w
    ensures Split(w + [sep] + s, sep) == [w] + Split(s, sep)
    decreases |w|
  {
    var t := w + [sep] + s;
    if w == [] {
      assert t[1..] == s;
    } else {
      assert t[1..] == w[1..] + [sep] + s;
      SplitAfterPiece(w[1..], s, sep);
      assert [w[0]] + w[1..] == w;
    }
  }

  /** The last piece of a split is the text after the last separator: a
      suffix of the input, preceded by a separator unless it is all of it. */
  lemma {:induction false} SplitLast(s: string, sep: char)
    ensures var parts := Split(s, sep);
      var last := parts[|parts| - 1];
      && |last| <= |s| && s[|s| - |last|..] == last
      && (|last| < |s| ==> s[|s| - |last| - 1] == sep)
    decreases |s|
  {
    if s != [] {
      SplitLast(s[1..], sep);
    }
  }

  /** Every character of a piece occurs in the joined text. */
  lemma {:induction false} JoinKeepsPieces(parts: seq<string>, sep: char, i: nat)
    requires i < |parts|
    ensures forall c :: c in parts[i] ==> c in Join(parts, sep)
    decreases |parts|
  {
    if |parts| > 1 && i > 0 {
      JoinKeepsPieces(parts[1..], sep, i - 1);
    }
  }
}
