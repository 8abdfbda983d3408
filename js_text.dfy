/** The few String.prototype operations the colour converter relies on
    (trim, startsWith, endsWith, includes, indexOf, lastIndexOf, slice and
    split), stated over Dafny strings. */
module JsText {

  /** A value that may be `undefined`. */
  datatype Option<T> = None | Some(value: T)

  /** A character that ECMAScript's `trim` and the regular-expression class
      `\s` treat as white space: the WhiteSpace and LineTerminator code points. */
  predicate IsWhiteSpace(c: char)
  {
    var k := c as int;
    k == 0x09 || k == 0x0A || k == 0x0B || k == 0x0C || k == 0x0D || k == 0x20
    || k == 0xA0 || k == 0x1680 || (0x2000 <= k <= 0x200A) || k == 0x2028
    || k == 0x2029 || k == 0x202F || k == 0x205F || k == 0x3000 || k == 0xFEFF
  }

  predicate AllWhiteSpace(s: string)
  {
    forall i | 0 <= i < |s| :: IsWhiteSpace(s[i])
  }

  predicate StartsWith(s: string, prefix: string)
  {
    |prefix| <= |s| && s[..|prefix|] == prefix
  }

  /** `s.endsWith(suffix)`: `s` is some text followed by `suffix`. */
  predicate EndsWith(s: string, suffix: string)
    ensures EndsWith(s, suffix) ==> |suffix| <= |s| && s == s[..|s| - |suffix|] + suffix
  {
    |suffix| <= |s| && s[|s| - |suffix|..] == suffix
  }

  /** `endsWith` is true exactly when the text is some prefix followed by the suffix. */
  lemma {:induction false} EndsWithIffAppended(s: string, suffix: string)
    ensures EndsWith(s, suffix) <==> exists p :: p + suffix == s
  {
    if exists p :: p + suffix == s {
      var p :| p + suffix == s;
      assert s[|s| - |suffix|..] == suffix;
    }
  }

  /** `sub` occurs in `s` starting at position `i`. */
  predicate OccursAt(s: string, sub: string, i: int)
  {
    0 <= i && i + |sub| <= |s| && s[i..i + |sub|] == sub
  }

  /** `s.includes(sub)`: a match at the front, or one further on. */
  function Contains(s: string, sub: string): (r: bool)
    ensures StartsWith(s, sub) ==> r
    ensures r ==> |sub| <= |s|
    decreases |s|
  {
    StartsWith(s, sub) || (|s| > 0 && Contains(s[1..], sub))
  }

  /** `includes` is true exactly when `sub` occurs at some position of `s`. */
  lemma {:induction false} ContainsIffOccurs(s: string, sub: string)
    ensures Contains(s, sub) <==> exists i :: OccursAt(s, sub, i)
    decreases |s|
  {
    OccursShifted(s, sub);
    if |s| > 0 {
      ContainsIffOccurs(s[1..], sub);
    }
  }

  /** An occurrence is at the start or in the rest of the string. */
  lemma {:induction false} OccursShifted(s: string, sub: string)
    ensures (exists i :: OccursAt(s, sub, i))
            <==> StartsWith(s, sub) || (|s| > 0 && exists i :: OccursAt(s[1..], sub, i))
  {
    if exists i :: OccursAt(s, sub, i) {
      var i :| OccursAt(s, sub, i);
      if i > 0 {
        assert s[1..][i - 1..i - 1 + |sub|] == s[i..i + |sub|];
        assert OccursAt(s[1..], sub, i - 1);
      }
    }
    if StartsWith(s, sub) {
      assert OccursAt(s, sub, 0);
    }
    if |s| > 0 && exists i :: OccursAt(s[1..], sub, i) {
      var i :| OccursAt(s[1..], sub, i);
      assert s[1..][i..i + |sub|] == s[i + 1..i + 1 + |sub|];
      assert OccursAt(s, sub, i + 1);
    }
  }

  /** `s.trimStart()`: drops the leading white space and nothing else. */
  function TrimStart(s: string): (r: string)
    ensures |r| <= |s| && r == s[|s| - |r|..]
    ensures AllWhiteSpace(s[..|s| - |r|])
    ensures r == [] || !IsWhiteSpace(r[0])
  {
    if s != [] && IsWhiteSpace(s[0]) then
      var r := TrimStart(s[1..]);
      LeadingStep(s, r);
      r
    else s
  }

  /** A suffix of `s[1..]` after white space is a suffix of `s` after white
      space, when `s` starts with white space. */
  lemma {:induction false} LeadingStep(s: string, r: string)
    requires s != [] && IsWhiteSpace(s[0])
    requires |r| <= |s| - 1 && r == s[1..][|s| - 1 - |r|..] && AllWhiteSpace(s[1..][..|s| - 1 - |r|])
    ensures r == s[|s| - |r|..] && AllWhiteSpace(s[..|s| - |r|])
  {
    var k := |s| - |r|;
    assert forall i | 1 <= i < k :: s[..k][i] == s[1..][..k - 1][i - 1];
  }

  /** `s.trimEnd()`: drops the trailing white space and nothing else. */
  function TrimEnd(s: string): (r: string)
    ensures |r| <= |s| && r == s[..|r|]
    ensures AllWhiteSpace(s[|r|..])
    ensures r == [] || !IsWhiteSpace(r[|r| - 1])
  {
    if s != [] && IsWhiteSpace(s[|s| - 1]) then TrimEnd(s[..|s| - 1]) else s
  }

  /** `r` is what lies in `s` between white space before position `k` and
      white space after `r`. */
  predicate TrimmedAt(s: string, r: string, k: int)
  {
    0 <= k <= |s| - |r| && r == s[k..k + |r|]
    && AllWhiteSpace(s[..k]) && AllWhiteSpace(s[k + |r|..])
  }

  /** `s.trim()`: the text between the leading and the trailing white space. */
  function Trim(s: string): (r: string)
    ensures exists k :: TrimmedAt(s, r, k)
    ensures r == [] || (!IsWhiteSpace(r[0]) && !IsWhiteSpace(r[|r| - 1]))
    ensures s != [] && !IsWhiteSpace(s[0]) && !IsWhiteSpace(s[|s| - 1]) ==> r == s
  {
    var t := TrimStart(s);
    var r := TrimEnd(t);
    TrimParts(s);
    assert r != [] ==> r[0] == t[0];
    KeepsUnspaced(s);
    r
  }

  /** Where the trimmed text lies in `s`. */
  lemma {:induction false} TrimParts(s: string)
    ensures TrimmedAt(s, TrimEnd(TrimStart(s)), |s| - |TrimStart(s)|)
  {
    TrimmedWithin(s, TrimStart(s), TrimEnd(TrimStart(s)));
  }

  /** A prefix `r` of a suffix `t` of `s`, with only white space around it. */
  lemma {:induction false} TrimmedWithin(s: string, t: string, r: string)
    requires |t| <= |s| && t == s[|s| - |t|..] && AllWhiteSpace(s[..|s| - |t|])
    requires |r| <= |t| && r == t[..|r|] && AllWhiteSpace(t[|r|..])
    ensures TrimmedAt(s, r, |s| - |t|)
  {
    var k := |s| - |t|;
    assert s[k..k + |r|] == r;
    assert s[k + |r|..] == t[|r|..];
  }

  /** Neither end of an unspaced string is trimmed. */
  lemma {:induction false} KeepsUnspaced(s: string)
    ensures s != [] && !IsWhiteSpace(s[0]) && !IsWhiteSpace(s[|s| - 1]) ==> TrimEnd(TrimStart(s)) == s
  {
    if s != [] && !IsWhiteSpace(s[0]) && !IsWhiteSpace(s[|s| - 1]) {
      assert TrimStart(s) == s;
    }
  }

  /** `trim` takes away exactly the white space around an unspaced text. */
  lemma {:induction false} TrimAround(w1: string, t: string, w2: string)
    requires AllWhiteSpace(w1) && AllWhiteSpace(w2)
    requires t != [] && !IsWhiteSpace(t[0]) && !IsWhiteSpace(t[|t| - 1])
    ensures Trim(w1 + t + w2) == t
  {
    assert w1 + t + w2 == w1 + (t + w2);
    TrimStartOver(w1, t + w2);
    TrimEndOver(t, w2);
  }

  /** `trimStart` drops a white-space run in front of a text that does not
      start with white space. */
  lemma {:induction false} TrimStartOver(w: string, t: string)
    requires AllWhiteSpace(w) && t != [] && !IsWhiteSpace(t[0])
    ensures TrimStart(w + t) == t
    decreases |w|
  {
    if w == [] {
      assert w + t == t;
    } else {
      var s := w + t;
      assert s[0] == w[0] && IsWhiteSpace(s[0]);
      assert s[1..] == w[1..] + t;
      assert AllWhiteSpace(w[1..]);
      TrimStartOver(w[1..], t);
      assert TrimStart(s) == TrimStart(s[1..]);
    }
  }

  /** `trimEnd` drops a white-space run after a text that does not end with
      white space. */
  lemma {:induction false} TrimEndOver(t: string, w: string)
    requires AllWhiteSpace(w) && t != [] && !IsWhiteSpace(t[|t| - 1])
    ensures TrimEnd(t + w) == t
    decreases |w|
  {
    if w == [] {
      assert t + w == t;
    } else {
      var s := t + w;
      assert s[..|s| - 1] == t + w[..|w| - 1];
      TrimEndOver(t, w[..|w| - 1]);
    }
  }

  /** `s.indexOf(c)` for a one-character search string: -1 when absent. */
  function IndexOf(s: string, c: char): (r: int)
    ensures r == -1 <==> c !in s
    ensures r != -1 ==> 0 <= r < |s| && s[r] == c && c !in s[..r]
  {
    if s == [] then -1
    else if s[0] == c then 0
    else
      var k := IndexOf(s[1..], c);
      assert s[1..][..if k < 0 then 0 else k] == s[1..1 + if k < 0 then 0 else k];
      if k < 0 then -1 else k + 1
  }

  /** `s.lastIndexOf(c)` for a one-character search string: -1 when absent. */
  function LastIndexOf(s: string, c: char): (r: int)
    ensures r == -1 <==> c !in s
    ensures r != -1 ==> 0 <= r < |s| && s[r] == c && c !in s[r + 1..]
  {
    if s == [] then -1
    else if s[|s| - 1] == c then |s| - 1
    else
      var k := LastIndexOf(s[..|s| - 1], c);
      assert k >= 0 ==> s[k + 1..] == s[..|s| - 1][k + 1..] + [s[|s| - 1]];
      k
  }

  /** `s.slice(start, end)`: a negative end counts from the end of the string,
      and an empty string results when the range is empty. */
  function Slice(s: string, start: int, end: int): (r: string)
    requires start >= 0
    ensures 0 <= end <= |s| && start <= end ==> r == s[start..end]
    ensures end < 0 && start <= |s| + end ==> r == s[start..|s| + end]
    ensures |r| <= |s|
    ensures forall i | 0 <= i < |r| :: r[i] in s
  {
    var from := if start < |s| then start else |s|;
    var to := if end < 0 then (if |s| + end < 0 then 0 else |s| + end)
              else if end < |s| then end else |s|;
    if from < to then s[from..to] else ""
  }

  /** Inverse of `Split`: the pieces glued back with the separator. */
  function Join(pieces: seq<string>, sep: char): string
  {
    if pieces == [] then ""
    else if |pieces| == 1 then pieces[0]
    else pieces[0] + [sep] + Join(pieces[1..], sep)
  }

  /** `s.split(sep)` for a one-character separator: at least one piece, no
      piece holds the separator, and joining the pieces gives `s` back. */
  function Split(s: string, sep: char): (r: seq<string>)
    ensures |r| >= 1
    ensures forall i | 0 <= i < |r| :: sep !in r[i]
    ensures Join(r, sep) == s
    ensures sep !in s ==> r == [s]
  {
    var k := IndexOf(s, sep);
    if k < 0 then [s]
    else
      var rest := Split(s[k + 1..], sep);
      SplitStep(s, sep, k, rest);
      [s[..k]] + rest
  }

  /** The piece before the first separator, in front of the pieces after it. */
  lemma {:induction false} SplitStep(s: string, sep: char, k: nat, rest: seq<string>)
    requires k < |s| && s[k] == sep && sep !in s[..k]
    requires |rest| >= 1 && (forall i | 0 <= i < |rest| :: sep !in rest[i]) && Join(rest, sep) == s[k + 1..]
    ensures var r := [s[..k]] + rest;
      (forall i | 0 <= i < |r| :: sep !in r[i]) && Join(r, sep) == s
  {
    var r := [s[..k]] + rest;
    assert r[0] == s[..k] && r[1..] == rest && |r| > 1;
    assert forall i | 1 <= i < |r| :: r[i] == rest[i - 1];
    Around(s, k);
  }

  /** A string is what lies before, at and after one of its positions. */
  lemma {:induction false} Around(s: string, k: nat)
    requires k < |s|
    ensures s == s[..k] + [s[k]] + s[k + 1..]
  {
    assert s[..k] + [s[k]] == s[..k + 1];
  }

  /** A string without white space. */
  predicate NoWhiteSpace(s: string)
  {
    forall i | 0 <= i < |s| :: !IsWhiteSpace(s[i])
  }

  /** `s.split(/\s+/)`: the pieces between maximal runs of white space, with a
      leading or trailing empty piece when `s` starts or ends with white space.
      `SplitAfterField` and `SplitThreeFields` state the other direction. */
  function SplitWhiteSpace(s: string): (r: seq<string>)
    ensures |r| >= 1
    ensures forall i | 0 <= i < |r| :: NoWhiteSpace(r[i])
    ensures NoWhiteSpace(s) ==> r == [s]
    decreases |s|
  {
    var k := FirstWhiteSpace(s);
    if k == |s| then [s]
    else
      var e := WhiteSpaceRunEnd(s, k);
      [s[..k]] + SplitWhiteSpace(s[e..])
  }

  /** A white-space-free field followed by a run of white space is the first
      piece, and the split goes on after the run. */
  lemma {:induction false} SplitAfterField(a: string, w: string, rest: string)
    requires NoWhiteSpace(a) && w != [] && AllWhiteSpace(w)
    requires rest == [] || !IsWhiteSpace(rest[0])
    ensures SplitWhiteSpace(a + w + rest) == [a] + SplitWhiteSpace(rest)
  {
    var s := a + w + rest;
    assert s[..|a|] == a && s[|a|..|a| + |w|] == w && s[|a| + |w|..] == rest;
    FirstWhiteSpaceIs(s, |a|);
    RunEndIs(s, |a|, |a| + |w|);
  }

  /** The first white space is where the white-space-free prefix ends. */
  lemma {:induction false} FirstWhiteSpaceIs(s: string, k: nat)
    requires k < |s| && NoWhiteSpace(s[..k]) && IsWhiteSpace(s[k])
    ensures FirstWhiteSpace(s) == k
  {
    assert forall j | 0 <= j < k :: s[..k][j] == s[j];
  }

  /** The run of white space at `k` ends where the all-white-space stretch
      `s[k..e]` meets a character that is not white space. */
  lemma {:induction false} RunEndIs(s: string, k: nat, e: nat)
    requires k < e <= |s| && AllWhiteSpace(s[k..e])
    requires e == |s| || !IsWhiteSpace(s[e])
    ensures WhiteSpaceRunEnd(s, k) == e
  {
    assert forall j | k <= j < e :: s[k..e][j - k] == s[j];
  }

  /** Three white-space-free fields separated by runs of white space split
      back into those three fields. */
  lemma {:induction false} SplitThreeFields(l: string, w1: string, c: string, w2: string, h: string)
    requires l != [] && c != [] && h != []
    requires NoWhiteSpace(l) && NoWhiteSpace(c) && NoWhiteSpace(h)
    requires w1 != [] && w2 != [] && AllWhiteSpace(w1) && AllWhiteSpace(w2)
    ensures SplitWhiteSpace(l + w1 + c + w2 + h) == [l, c, h]
  {
    var tail := c + w2 + h;
    assert l + w1 + c + w2 + h == l + w1 + tail;
    assert tail[0] == c[0];
    SplitAfterField(c, w2, h);
    SplitAfterField(l, w1, tail);
  }

  /** Index of the first white-space character of `s`, or |s| when there is none. */
  function FirstWhiteSpace(s: string): (k: nat)
    ensures k <= |s|
    ensures forall j | 0 <= j < k :: !IsWhiteSpace(s[j])
    ensures k < |s| ==> IsWhiteSpace(s[k])
  {
    if s == [] || IsWhiteSpace(s[0]) then 0 else 1 + FirstWhiteSpace(s[1..])
  }

  /** End of the run of white space that starts at `k`. */
  function WhiteSpaceRunEnd(s: string, k: nat): (e: nat)
    requires k < |s| && IsWhiteSpace(s[k])
    ensures k < e <= |s|
    ensures forall j | k <= j < e :: IsWhiteSpace(s[j])
    ensures e < |s| ==> !IsWhiteSpace(s[e])
    decreases |s| - k
  {
    if k + 1 < |s| && IsWhiteSpace(s[k + 1]) then WhiteSpaceRunEnd(s, k + 1) else k + 1
  }
}
