/** The string operations the classifier relies on: ASCII lower-casing
    (`str.lower`), substring containment (`k in s`), `", ".join(...)` and
    `str.strip()`. */
module Text {

  // ---------------------------------------------------------------------
  // Lower-casing (ASCII only)
  // ---------------------------------------------------------------------

  predicate IsUpperAscii(c: char) {
    'A' <= c <= 'Z'
  }

  /** A string with no upper-case ASCII letter. */
  predicate IsLower(s: string) {
    forall i :: 0 <= i < |s| ==> !IsUpperAscii(s[i])
  }

  function LowerChar(c: char): (d: char)
    ensures !IsUpperAscii(d)
    ensures IsUpperAscii(c) ==> d as int == c as int + 32
    ensures !IsUpperAscii(c) ==> d == c
  {
    if IsUpperAscii(c) then (c as int + 32) as char else c
  }

  /** `s.lower()` restricted to the ASCII letters. */
  function Lower(s: string): (r: string)
    ensures |r| == |s|
    ensures forall i :: 0 <= i < |s| ==> r[i] == LowerChar(s[i])
  {
    if s == [] then [] else [LowerChar(s[0])] + Lower(s[1..])
  }

  /** Lower-casing leaves no upper-case letter behind. */
  lemma LowerIsLower(s: string)
    ensures IsLower(Lower(s))
  {
  }

  /** A string that is already lower-case is left alone; in particular
      lower-casing twice is the same as lower-casing once. */
  lemma {:induction false} LowerFixesLower(s: string)
    requires IsLower(s)
    ensures Lower(s) == s
  {
    if s != [] {
      LowerFixesLower(s[1..]);
    }
  }

  lemma LowerIdempotent(s: string)
    ensures Lower(Lower(s)) == Lower(s)
  {
    LowerIsLower(s);
    LowerFixesLower(Lower(s));
  }

  /** Lower-casing commutes with taking a slice. */
  lemma {:induction false} LowerSlice(s: string, a: nat, b: nat)
    requires a <= b <= |s|
    ensures Lower(s)[a..b] == Lower(s[a..b])
  {
    var l, r := Lower(s)[a..b], Lower(s[a..b]);
    forall i | 0 <= i < b - a ensures l[i] == r[i] {
      assert l[i] == LowerChar(s[a + i]);
      assert r[i] == LowerChar(s[a..b][i]);
    }
  }

  // ---------------------------------------------------------------------
  // Substring containment
  // ---------------------------------------------------------------------

  /** `k` occurs in `s` starting at position `i`. */
  predicate OccursAt(s: string, k: string, i: int) {
    0 <= i && i + |k| <= |s| && s[i..i + |k|] == k
  }

  /** Python's `k in s` for two strings: `k` is a contiguous substring of `s`. */
  function Contains(s: string, k: string): (r: bool)
    ensures r <==> exists i :: OccursAt(s, k, i)
    decreases |s|
  {
    if |k| > |s| then false
    else if s[..|k|] == k then (assert OccursAt(s, k, 0); true)
    else
      var rest := Contains(s[1..], k);
      forall i | OccursAt(s[1..], k, i) ensures OccursAt(s, k, i + 1) {
        assert s[1..][i..i + |k|] == s[i + 1..i + 1 + |k|];
      }
      forall i | OccursAt(s, k, i) ensures i > 0 && OccursAt(s[1..], k, i - 1) {
        assert s[1..][i - 1..i - 1 + |k|] == s[i..i + |k|];
      }
      rest
  }

  /** `k` occurs in `s` at position `i` once ASCII case is ignored. */
  predicate OccursAtIgnoringCase(s: string, k: string, i: int) {
    0 <= i && i + |k| <= |s| && Lower(s[i..i + |k|]) == k
  }

  /** Matching a word against the lower-cased text is matching it against
      the original text while ignoring ASCII case (so a word holding an
      upper-case letter never matches). */
  lemma {:induction false} ContainsLowerIgnoresCase(s: string, k: string)
    ensures Contains(Lower(s), k) <==> exists i :: OccursAtIgnoringCase(s, k, i)
  {
    forall i | OccursAt(Lower(s), k, i) ensures OccursAtIgnoringCase(s, k, i) {
      LowerSlice(s, i, i + |k|);
    }
    forall i | OccursAtIgnoringCase(s, k, i) ensures OccursAt(Lower(s), k, i) {
      LowerSlice(s, i, i + |k|);
    }
  }

  // ---------------------------------------------------------------------
  // Joining and splitting
  // ---------------------------------------------------------------------

  /** `sep.join(ws)`: the joined string starts with the first word, and of
      no words it is empty. */
  function Join(ws: seq<string>, sep: string): (r: string)
    ensures ws == [] ==> r == ""
    ensures ws != [] ==> |r| >= |ws[0]| && r[..|ws[0]|] == ws[0]
  {
    if ws == [] then ""
    else if |ws| == 1 then ws[0]
    else
      var r := ws[0] + (sep + Join(ws[1..], sep));
      assert r[..|ws[0]|] == ws[0];
      r
  }

  /** Every joined word appears in the joined string. */
  lemma {:induction false} JoinContainsEach(ws: seq<string>, sep: string, j: nat)
    requires j < |ws|
    ensures Contains(Join(ws, sep), ws[j])
  {
    var s := Join(ws, sep);
    if j == 0 {
      assert OccursAt(s, ws[0], 0);
    } else {
      JoinContainsEach(ws[1..], sep, j - 1);
      var rest := Join(ws[1..], sep);
      var i :| OccursAt(rest, ws[j], i);
      var off := |ws[0]| + |sep|;
      assert s == ws[0] + sep + rest;
      assert s[off..] == rest;
      assert s[off + i..off + i + |ws[j]|] == rest[i..i + |ws[j]|];
      assert OccursAt(s, ws[j], off + i);
    }
  }

  /** Index of the first `c` in `s`, or `|s|` when there is none. */
  function IndexOf(s: string, c: char): (r: nat)
    ensures r <= |s|
    ensures r < |s| ==> s[r] == c
    ensures forall j :: 0 <= j < r ==> s[j] != c
  {
    if s == [] then 0
    else if s[0] == c then 0
    else 1 + IndexOf(s[1..], c)
  }

  /** Splits a `", "`-joined string back into its parts: cuts at every `,`
      and drops one space that follows it. */
  function Unjoin(s: string): seq<string>
    decreases |s|
  {
    var i := IndexOf(s, ',');
    if i == |s| then [s]
    else if i + 1 < |s| && s[i + 1] == ' ' then [s[..i]] + Unjoin(s[i + 2..])
    else [s[..i]] + Unjoin(s[i + 1..])
  }

  /** `", ".join` loses nothing when no word holds a comma. */
  lemma {:induction false} UnjoinJoin(ws: seq<string>)
    requires ws != []
    requires forall j :: 0 <= j < |ws| ==> ',' !in ws[j]
    ensures Unjoin(Join(ws, ", ")) == ws
  {
    var w := ws[0];
    assert forall j :: 0 <= j < |w| ==> w[j] != ',';
    if |ws| == 1 {
      assert IndexOf(w, ',') == |w|;
    } else {
      var rest := Join(ws[1..], ", ");
      var s := w + ", " + rest;
      assert Join(ws, ", ") == s;
      assert s[|w|] == ',';
      assert forall j :: 0 <= j < |w| ==> s[j] == w[j];
      var i := IndexOf(s, ',');
      assert i == |w|;
      assert s[..i] == w;
      assert s[i + 1] == ' ';
      assert s[i + 2..] == rest;
      UnjoinJoin(ws[1..]);
      assert ws == [w] + ws[1..];
    }
  }

  // ---------------------------------------------------------------------
  // Stripping white space
  // ---------------------------------------------------------------------

  /** The characters Python's `str.isspace` accepts, which `str.strip()` removes. */
  predicate IsSpace(c: char) {
    ('\t' <= c <= '\r') || ('\U{1C}' <= c <= ' ') || c == '\U{85}' || c == '\U{A0}'
    || c == '\U{1680}' || ('\U{2000}' <= c <= '\U{200A}') || c == '\U{2028}' || c == '\U{2029}'
    || c == '\U{202F}' || c == '\U{205F}' || c == '\U{3000}'
  }

  /** `s.lstrip()`. */
  function StripLeft(s: string): string {
    if s != [] && IsSpace(s[0]) then StripLeft(s[1..]) else s
  }

  /** `s.rstrip()`. */
  function StripRight(s: string): string {
    if s != [] && IsSpace(s[|s| - 1]) then StripRight(s[..|s| - 1]) else s
  }

  /** `s.strip()`: never longer than `s`, and it neither starts nor ends
      with white space. */
  function Strip(s: string): (r: string)
    ensures |r| <= |s|
    ensures r == [] || (!IsSpace(r[0]) && !IsSpace(r[|r| - 1]))
  {
    var l := StripLeft(s);
    StripLeftSuffix(s);
    StripRightPrefix(l);
    var r := StripRight(l);
    assert r == [] || r[0] == l[0];
    r
  }

  /** `StripLeft(s)` is the longest suffix of `s` that does not start with
      white space. */
  lemma {:induction false} StripLeftSuffix(s: string)
    ensures |StripLeft(s)| <= |s| && StripLeft(s) == s[|s| - |StripLeft(s)|..]
    ensures forall i :: 0 <= i < |s| - |StripLeft(s)| ==> IsSpace(s[i])
    ensures StripLeft(s) == [] || !IsSpace(StripLeft(s)[0])
  {
    if s != [] && IsSpace(s[0]) {
      var t := s[1..];
      StripLeftSuffix(t);
      var r := StripLeft(t);
      assert StripLeft(s) == r;
      assert t[|t| - |r|..] == s[|s| - |r|..];
      forall i | 0 <= i < |s| - |r| ensures IsSpace(s[i]) {
        if i > 0 {
          assert s[i] == t[i - 1];
        }
      }
    }
  }

  /** `StripRight(s)` is the longest prefix of `s` that does not end with
      white space. */
  lemma {:induction false} StripRightPrefix(s: string)
    ensures |StripRight(s)| <= |s| && StripRight(s) == s[..|StripRight(s)|]
    ensures forall i :: |StripRight(s)| <= i < |s| ==> IsSpace(s[i])
    ensures StripRight(s) == [] || !IsSpace(StripRight(s)[|StripRight(s)| - 1])
  {
    if s != [] && IsSpace(s[|s| - 1]) {
      var t := s[..|s| - 1];
      StripRightPrefix(t);
      var r := StripRight(t);
      assert StripRight(s) == r;
      assert t[..|r|] == s[..|r|];
      forall i | |r| <= i < |s| ensures IsSpace(s[i]) {
        if i < |t| {
          assert s[i] == t[i];
        }
      }
    }
  }

  /** `Strip(s)` is the slice of `s` left once the white space at both ends
      is cut off, and it neither starts nor ends with white space. */
  lemma StripBounds(s: string) returns (a: nat, b: nat)
    ensures a <= b <= |s| && Strip(s) == s[a..b]
    ensures forall i :: 0 <= i < a ==> IsSpace(s[i])
    ensures forall i :: b <= i < |s| ==> IsSpace(s[i])
    ensures Strip(s) == [] || (!IsSpace(Strip(s)[0]) && !IsSpace(Strip(s)[|Strip(s)| - 1]))
  {
    var l := StripLeft(s);
    var r := StripRight(l);
    StripLeftSuffix(s);
    StripRightPrefix(l);
    a := |s| - |l|;
    b := a + |r|;
    assert r == s[a..b];
    forall i | b <= i < |s| ensures IsSpace(s[i]) {
      assert s[i] == l[i - a];
    }
    if r != [] {
      assert r[0] == l[0];
    }
  }

  /** Stripping twice is the same as stripping once. */
  lemma StripIdempotent(s: string)
    ensures Strip(Strip(s)) == Strip(s)
  {
    var t := Strip(s);
    var _, _ := StripBounds(s);
    if t != [] {
      assert StripLeft(t) == t;
      assert StripRight(t) == t;
    }
  }
}
