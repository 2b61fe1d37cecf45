/**
 * The part of Go's `strings` package that the generator uses, on byte strings:
 * a Go `string` is a sequence of bytes, and `len`, slicing and the functions
 * below all measure and cut in bytes.
 */
module Strings {
  import opened Results

  type Byte = b: int | 0 <= b < 256
  type Bytes = seq<Byte>

  /** The bytes of an ASCII literal. */
  function Ascii(s: string): Bytes
    requires forall i :: 0 <= i < |s| ==> s[i] as int < 128
  {
    seq(|s|, i requires 0 <= i < |s| => s[i] as int)
  }

  const Slash: Byte := 0x2F
  const Underscore: Byte := 0x5F
  const Space: Byte := 0x20

  /** `strings.HasSuffix`. */
  predicate HasSuffix(s: Bytes, suffix: Bytes) {
    |suffix| <= |s| && s[|s| - |suffix|..] == suffix
  }

  /** `strings.TrimSuffix`: removes one copy of `suffix` when `s` ends with it. */
  function TrimSuffix(s: Bytes, suffix: Bytes): (r: Bytes)
    ensures HasSuffix(s, suffix) ==> r + suffix == s
    ensures !HasSuffix(s, suffix) ==> r == s
  {
    if HasSuffix(s, suffix) then s[..|s| - |suffix|] else s
  }

  /** The index of the first occurrence of `b` in `s`, as `strings.Index` finds it. */
  function IndexOf(s: Bytes, b: Byte): (r: Option<nat>)
    ensures r.None? ==> b !in s
    ensures r.Some? ==> r.value < |s| && s[r.value] == b && b !in s[..r.value]
  {
    if s == [] then None
    else if s[0] == b then Some(0)
    else match IndexOf(s[1..], b)
      case None => None
      case Some(i) => Some(i + 1)
  }

  /**
   * `strings.SplitN(s, string(sep), 2)` when it yields two parts: the bytes
   * before the first `sep` and everything after it. `None` stands for the
   * one-part result, which `SplitN` gives exactly when `sep` does not occur.
   */
  function SplitFirst(s: Bytes, sep: Byte): (r: Option<(Bytes, Bytes)>)
    ensures r.None? <==> sep !in s
    ensures r.Some? ==> s == r.value.0 + [sep] + r.value.1 && sep !in r.value.0
  {
    match IndexOf(s, sep)
    case None => None
    case Some(i) =>
      assert s == s[..i] + [sep] + s[i + 1..];
      Some((s[..i], s[i + 1..]))
  }

  /** Splitting `a + [sep] + b` at the first `sep` gives back `a` and `b` whenever `a` holds no `sep`. */
  lemma SplitFirstOfJoined(a: Bytes, sep: Byte, b: Bytes)
    requires sep !in a
    ensures SplitFirst(a + [sep] + b, sep) == Some((a, b))
  {
    var s := a + [sep] + b;
    assert s[|a|] == sep;
    assert s[..|a|] == a && s[|a| + 1..] == b;
  }

  /** Every byte of `s` is `b`. */
  predicate Only(s: Bytes, b: Byte) {
    forall j :: 0 <= j < |s| ==> s[j] == b
  }

  /** `strings.TrimRight(s, string(b))`: drops every trailing `b`. */
  function TrimRight(s: Bytes, b: Byte): (r: Bytes)
    ensures |r| <= |s| && r == s[..|r|]
    ensures r == [] || r[|r| - 1] != b
    ensures Only(s[|r|..], b)
  {
    if s != [] && s[|s| - 1] == b then TrimRight(s[..|s| - 1], b) else s
  }

  /** `strings.TrimLeft(s, string(b))`: drops every leading `b`. */
  function TrimLeft(s: Bytes, b: Byte): (r: Bytes)
    ensures |r| <= |s| && r == s[|s| - |r|..]
    ensures r == [] || r[0] != b
    ensures Only(s[..|s| - |r|], b)
  {
    if s != [] && s[0] == b then TrimLeft(s[1..], b) else s
  }

  lemma OnlyAppend(p: Bytes, q: Bytes, b: Byte)
    requires Only(p, b) && Only(q, b)
    ensures Only(p + q, b)
  {
    assert forall j :: 0 <= j < |p| ==> (p + q)[j] == p[j];
    assert forall j :: |p| <= j < |p| + |q| ==> (p + q)[j] == q[j - |p|];
  }

  lemma OnlyFrom(t: Bytes, k: nat, b: Byte)
    requires k <= |t| && Only(t[k..], b)
    ensures forall j :: k <= j < |t| ==> t[j] == b
  {
    forall j | k <= j < |t| ensures t[j] == b {
      assert t[k..][j - k] == t[j];
    }
  }

  lemma OnlyUpTo(t: Bytes, k: nat, b: Byte)
    requires k <= |t| && Only(t[..k], b)
    ensures forall j :: 0 <= j < k ==> t[j] == b
  {
    forall j | 0 <= j < k ensures t[j] == b {
      assert t[..k][j] == t[j];
    }
  }

  /** The contract of `TrimRight` has one solution only. */
  lemma TrimRightUnique(t: Bytes, b: Byte, r: Bytes)
    requires |r| <= |t| && r == t[..|r|] && Only(t[|r|..], b)
    requires r == [] || r[|r| - 1] != b
    ensures TrimRight(t, b) == r
  {
    var q := TrimRight(t, b);
    OnlyFrom(t, |q|, b);
    OnlyFrom(t, |r|, b);
    assert |r| > 0 ==> t[|r| - 1] != b;
    assert |q| > 0 ==> t[|q| - 1] != b;
    assert |q| == |r|;
  }

  /** The contract of `TrimLeft` has one solution only. */
  lemma TrimLeftUnique(t: Bytes, b: Byte, r: Bytes)
    requires |r| <= |t| && r == t[|t| - |r|..] && Only(t[..|t| - |r|], b)
    requires r == [] || r[0] != b
    ensures TrimLeft(t, b) == r
  {
    var q := TrimLeft(t, b);
    OnlyUpTo(t, |t| - |q|, b);
    OnlyUpTo(t, |t| - |r|, b);
    assert |r| > 0 ==> t[|t| - |r|] != b;
    assert |q| > 0 ==> t[|t| - |q|] != b;
    assert |q| == |r|;
  }

  /** Slashes, or any other trimmed byte, appended to `s` make no difference to `TrimRight`. */
  lemma TrimRightPadded(s: Bytes, pad: Bytes, b: Byte)
    requires Only(pad, b)
    ensures TrimRight(s + pad, b) == TrimRight(s, b)
  {
    var r, t := TrimRight(s, b), s + pad;
    assert t[..|r|] == r;
    assert t[|r|..] == s[|r|..] + pad;
    OnlyAppend(s[|r|..], pad, b);
    TrimRightUnique(t, b, r);
  }

  /** Copies of `b` put before `s` make no difference to `TrimLeft`. */
  lemma TrimLeftPadded(pad: Bytes, s: Bytes, b: Byte)
    requires Only(pad, b)
    ensures TrimLeft(pad + s, b) == TrimLeft(s, b)
  {
    var r, t := TrimLeft(s, b), pad + s;
    var k := |s| - |r|;
    SlicesOfPadded(pad, s, k);
    OnlyAppend(pad, s[..k], b);
    TrimLeftUnique(t, b, r);
  }

  lemma SlicesOfPadded(pad: Bytes, s: Bytes, k: nat)
    requires k <= |s|
    ensures (pad + s)[|pad| + k..] == s[k..]
    ensures (pad + s)[..|pad| + k] == pad + s[..k]
  {
  }

  /**
   * The bytes `strings.Fields` treats as white space in a string of ASCII
   * text: tab, line feed, vertical tab, form feed, carriage return, space.
   */
  predicate IsSpace(b: Byte) {
    b == 0x09 || b == 0x0A || b == 0x0B || b == 0x0C || b == 0x0D || b == 0x20
  }

  predicate NoSpace(s: Bytes) {
    forall j :: 0 <= j < |s| ==> !IsSpace(s[j])
  }

  /** The length of the run of non-space bytes at the front of `s`. */
  function WordLength(s: Bytes): (n: nat)
    ensures n <= |s| && NoSpace(s[..n])
    ensures n == |s| || IsSpace(s[n])
  {
    if s == [] || IsSpace(s[0]) then 0 else 1 + WordLength(s[1..])
  }

  /**
   * `strings.Fields`: the maximal runs of non-space bytes of `s`, in order.
   */
  function Fields(s: Bytes): (r: seq<Bytes>)
    ensures forall k :: 0 <= k < |r| ==> r[k] != [] && NoSpace(r[k])
    decreases |s|
  {
    if s == [] then []
    else if IsSpace(s[0]) then Fields(s[1..])
    else
      var n := WordLength(s);
      [s[..n]] + Fields(s[n..])
  }

  /** `strings.Join`. */
  function Join(parts: seq<Bytes>, sep: Bytes): (r: Bytes)
    ensures parts != [] ==> |parts[0]| <= |r|
  {
    if parts == [] then []
    else if |parts| == 1 then parts[0]
    else parts[0] + sep + Join(parts[1..], sep)
  }

  /** `strings.Join(strings.Fields(s), " ")`. */
  function Collapse(s: Bytes): Bytes {
    Join(Fields(s), [Space])
  }

  /** The non-space bytes of `s`, in order. */
  function Letters(s: Bytes): Bytes {
    if s == [] then []
    else if IsSpace(s[0]) then Letters(s[1..])
    else [s[0]] + Letters(s[1..])
  }

  /** The parts laid end to end. */
  function Concat(parts: seq<Bytes>): Bytes {
    if parts == [] then [] else parts[0] + Concat(parts[1..])
  }

  /**
   * The shape of a collapsed string: it neither starts nor ends with white
   * space, its only white space byte is the space, and no two spaces touch.
   */
  predicate Collapsed(t: Bytes) {
    (t == [] || (!IsSpace(t[0]) && !IsSpace(t[|t| - 1]))) &&
    forall j :: 0 <= j < |t| && IsSpace(t[j]) ==> t[j] == Space && j + 1 < |t| && !IsSpace(t[j + 1])
  }

  lemma {:induction false} LettersAppend(a: Bytes, b: Bytes)
    ensures Letters(a + b) == Letters(a) + Letters(b)
  {
    if a != [] {
      assert (a + b)[1..] == a[1..] + b;
      LettersAppend(a[1..], b);
    } else {
      assert a + b == b;
    }
  }

  lemma {:induction false} LettersOfWord(w: Bytes)
    requires NoSpace(w)
    ensures Letters(w) == w
  {
    if w != [] {
      LettersOfWord(w[1..]);
    }
  }

  /** A space between two collapsed strings that start and end with a letter keeps the shape. */
  lemma CollapsedAround(p: Bytes, j: Bytes)
    requires p != [] && NoSpace(p)
    requires j != [] && Collapsed(j)
    ensures Collapsed(p + [Space] + j)
  {
    var t := p + [Space] + j;
    assert forall i :: 0 <= i < |p| ==> t[i] == p[i];
    forall i | 0 <= i < |t| && IsSpace(t[i])
      ensures t[i] == Space && i + 1 < |t| && !IsSpace(t[i + 1])
    {
      if i > |p| {
        assert t[i] == j[i - |p| - 1];
        assert i + 1 < |t| && t[i + 1] == j[i - |p|];
      } else if i == |p| {
        assert t[i + 1] == j[0];
      }
    }
  }

  /** Joining words with single spaces yields a collapsed string. */
  lemma {:induction false} JoinWordsCollapsed(parts: seq<Bytes>)
    requires forall k :: 0 <= k < |parts| ==> parts[k] != [] && NoSpace(parts[k])
    ensures Collapsed(Join(parts, [Space]))
    ensures Letters(Join(parts, [Space])) == Concat(parts)
  {
    if |parts| == 1 {
      LettersOfWord(parts[0]);
      assert Concat(parts[1..]) == [];
    } else if |parts| > 1 {
      var p, rest := parts[0], parts[1..];
      JoinWordsCollapsed(rest);
      var j := Join(rest, [Space]);
      assert Join(parts, [Space]) == p + [Space] + j;
      CollapsedAround(p, j);
      LettersOfWord(p);
      LettersAppend(p + [Space], j);
      LettersAppend(p, [Space]);
    }
  }

  /** `strings.Fields` keeps every non-space byte, in order. */
  lemma {:induction false} FieldsKeepLetters(s: Bytes)
    ensures Concat(Fields(s)) == Letters(s)
    decreases |s|
  {
    if s != [] {
      if IsSpace(s[0]) {
        FieldsKeepLetters(s[1..]);
      } else {
        var n := WordLength(s);
        FieldsKeepLetters(s[n..]);
        assert s == s[..n] + s[n..];
        LettersAppend(s[..n], s[n..]);
        LettersOfWord(s[..n]);
        assert ([s[..n]] + Fields(s[n..]))[1..] == Fields(s[n..]);
      }
    }
  }

  /**
   * Collapsing leaves no leading, trailing or repeated white space, turns
   * every remaining white space byte into a space, and keeps every other
   * byte of `s` in its order.
   */
  lemma CollapseShape(s: Bytes)
    ensures Collapsed(Collapse(s))
    ensures Letters(Collapse(s)) == Letters(s)
  {
    JoinWordsCollapsed(Fields(s));
    FieldsKeepLetters(s);
  }

  /** Collapsing never makes a string longer. */
  lemma {:induction false} CollapseNoLonger(s: Bytes)
    ensures |Collapse(s)| <= |s|
    decreases |s|
  {
    if s != [] {
      if IsSpace(s[0]) {
        CollapseNoLonger(s[1..]);
      } else {
        var n := WordLength(s);
        var rest := s[n..];
        var fs := Fields(rest);
        assert Fields(s) == [s[..n]] + fs;
        if fs != [] {
          assert rest != [] && IsSpace(rest[0]);
          assert fs == Fields(rest[1..]);
          CollapseNoLonger(rest[1..]);
          assert ([s[..n]] + fs)[1..] == fs;
        }
      }
    }
  }

  /** What follows the first space of a collapsed string is collapsed too. */
  lemma CollapsedAfterSpace(t: Bytes, n: nat)
    requires Collapsed(t) && n < |t| && IsSpace(t[n])
    ensures t[n] == Space && n + 1 < |t| && Collapsed(t[n + 1..])
  {
    var rest := t[n + 1..];
    forall i | 0 <= i < |rest| && IsSpace(rest[i])
      ensures rest[i] == Space && i + 1 < |rest| && !IsSpace(rest[i + 1])
    {
      assert rest[i] == t[n + 1 + i];
    }
  }

  lemma JoinCons(w: Bytes, parts: seq<Bytes>, sep: Bytes)
    requires parts != []
    ensures Join([w] + parts, sep) == w + sep + Join(parts, sep)
  {
    assert ([w] + parts)[1..] == parts;
  }

  lemma SplitAt(t: Bytes, n: nat)
    requires n < |t|
    ensures t == t[..n] + [t[n]] + t[n + 1..]
  {
  }

  /** The fields of a string that starts with a word followed by white space. */
  lemma FieldsAfterWord(t: Bytes, n: nat)
    requires n == WordLength(t) && 0 < n < |t|
    ensures Fields(t) == [t[..n]] + Fields(t[n + 1..])
  {
    assert t[n..][1..] == t[n + 1..];
  }

  /** A string already in collapsed form is left as it is. */
  lemma {:induction false} CollapseKeepsCollapsed(t: Bytes)
    requires Collapsed(t)
    ensures Collapse(t) == t
    decreases |t|
  {
    if t != [] {
      var n := WordLength(t);
      if n == |t| {
        assert Fields(t) == [t] + Fields([]) by {
          assert t[..n] == t && t[n..] == [];
        }
      } else {
        var rest := t[n + 1..];
        CollapsedAfterSpace(t, n);
        FieldsAfterWord(t, n);
        CollapseKeepsCollapsed(rest);
        JoinCons(t[..n], Fields(rest), [Space]);
        SplitAt(t, n);
      }
    }
  }

  /** Collapsing twice is collapsing once. */
  lemma CollapseIdempotent(s: Bytes)
    ensures Collapse(Collapse(s)) == Collapse(s)
  {
    CollapseShape(s);
    CollapseKeepsCollapsed(Collapse(s));
  }

  /** Every byte of `s` is white space. */
  predicate Blank(s: Bytes) {
    forall j :: 0 <= j < |s| ==> IsSpace(s[j])
  }

  /** `WordLength` is the one length that ends the leading run of non-space bytes. */
  lemma {:induction false} WordLengthIs(t: Bytes, k: nat)
    requires k <= |t| && NoSpace(t[..k]) && (k == |t| || IsSpace(t[k]))
    ensures WordLength(t) == k
  {
    if k > 0 {
      assert t[..k][0] == t[0];
      assert t[1..][..k - 1] == t[..k][1..];
      WordLengthIs(t[1..], k - 1);
    }
  }

  /** White space in front of a text adds no field. */
  lemma {:induction false} FieldsAfterBlank(ws: Bytes, b: Bytes)
    requires Blank(ws)
    ensures Fields(ws + b) == Fields(b)
  {
    if ws != [] {
      assert (ws + b)[0] == ws[0];
      assert (ws + b)[1..] == ws[1..] + b;
      FieldsAfterBlank(ws[1..], b);
    } else {
      assert ws + b == b;
    }
  }

  /** A text of white space only has no fields. */
  lemma FieldsOfBlank(ws: Bytes)
    requires Blank(ws)
    ensures Fields(ws) == []
  {
    FieldsAfterBlank(ws, []);
    assert ws + [] == ws;
  }

  /** A non-empty text without white space is a single field. */
  lemma FieldsOfWord(w: Bytes)
    requires w != [] && NoSpace(w)
    ensures Fields(w) == [w]
  {
    assert w[..|w|] == w;
    WordLengthIs(w, |w|);
    assert w[|w|..] == [];
  }

  /** The first word of a text ends where it ends in any front part followed by white space. */
  lemma WordLengthBeforeBlank(a: Bytes, ws: Bytes, b: Bytes)
    requires ws != [] && Blank(ws)
    ensures WordLength(a + ws + b) == WordLength(a)
  {
    var t, m := a + ws + b, WordLength(a);
    assert t[..m] == a[..m];
    if m < |a| {
      assert t[m] == a[m];
    } else {
      assert t[m] == ws[0];
    }
    WordLengthIs(t, m);
  }

  /**
   * `strings.Fields` splits exactly at white space: a run of white space
   * between two texts separates their fields and contributes nothing else.
   */
  lemma {:induction false} FieldsSplit(a: Bytes, ws: Bytes, b: Bytes)
    requires ws != [] && Blank(ws)
    ensures Fields(a + ws + b) == Fields(a) + Fields(b)
    decreases |a|, 1
  {
    var t := a + ws + b;
    if a == [] {
      assert t == ws + b;
      FieldsAfterBlank(ws, b);
    } else if IsSpace(a[0]) {
      assert t[0] == a[0];
      assert t[1..] == a[1..] + ws + b;
      FieldsSplit(a[1..], ws, b);
    } else {
      FieldsSplitWord(a, ws, b);
    }
  }

  lemma {:induction false} FieldsSplitWord(a: Bytes, ws: Bytes, b: Bytes)
    requires ws != [] && Blank(ws) && a != [] && !IsSpace(a[0])
    ensures Fields(a + ws + b) == Fields(a) + Fields(b)
    decreases |a|, 0
  {
    var t, m := a + ws + b, WordLength(a);
    WordLengthBeforeBlank(a, ws, b);
    assert t[0] == a[0];
    assert t[..m] == a[..m];
    assert t[m..] == a[m..] + ws + b;
    assert Fields(t) == [a[..m]] + Fields(t[m..]);
    assert Fields(a) == [a[..m]] + Fields(a[m..]);
    if m < |a| {
      FieldsSplit(a[m..], ws, b);
    } else {
      assert a[m..] == [];
      assert t[m..] == ws + b;
      FieldsAfterBlank(ws, b);
    }
  }

  /** Joining two non-empty lists of parts puts one separator between them. */
  lemma {:induction false} JoinAppend(p: seq<Bytes>, q: seq<Bytes>, sep: Bytes)
    requires p != [] && q != []
    ensures Join(p + q, sep) == Join(p, sep) + sep + Join(q, sep)
  {
    if |p| == 1 {
      assert (p + q)[1..] == q;
    } else {
      assert (p + q)[1..] == p[1..] + q;
      JoinAppend(p[1..], q, sep);
    }
  }

  /** A text with a non-space byte has a field. */
  lemma FieldsOfLetters(s: Bytes)
    requires Letters(s) != []
    ensures Fields(s) != []
  {
    FieldsKeepLetters(s);
  }

  /**
   * Collapsing turns every run of white space between two words into exactly
   * one space: white space between two texts that each hold a non-space byte
   * becomes a single space between their collapsed forms.
   */
  lemma CollapseSplit(a: Bytes, ws: Bytes, b: Bytes)
    requires ws != [] && Blank(ws)
    requires Letters(a) != [] && Letters(b) != []
    ensures Collapse(a + ws + b) == Collapse(a) + [Space] + Collapse(b)
  {
    FieldsSplit(a, ws, b);
    FieldsOfLetters(a);
    FieldsOfLetters(b);
    JoinAppend(Fields(a), Fields(b), [Space]);
  }
}
