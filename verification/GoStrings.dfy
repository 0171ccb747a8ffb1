/** The functions of Go's `strings` package that the program calls, on valid UTF-8 text. */
module GoStrings {

  // unicode.IsSpace
  predicate IsSpace(c: char) {
    || c in {'\t', '\n', '\U{0B}', '\U{0C}', '\r', ' ', '\U{85}', '\U{A0}', '\U{1680}'}
    || '\U{2000}' <= c <= '\U{200A}'
    || c in {'\U{2028}', '\U{2029}', '\U{202F}', '\U{205F}', '\U{3000}'}
  }

  // The space characters by their codes.
  lemma SpaceCodes(c: char)
    ensures IsSpace(c) <==>
            var n := c as int;
            9 <= n <= 13 || n == 32 || n == 0x85 || n == 0xA0 || n == 0x1680 || 0x2000 <= n <= 0x200A ||
            n == 0x2028 || n == 0x2029 || n == 0x202F || n == 0x205F || n == 0x3000
  {
    assert '\t' as int == 9 && '\n' as int == 10 && '\r' as int == 13 && ' ' as int == 32;
  }

  // Go's len of one character: the bytes of its UTF-8 encoding.
  function RuneLen(c: char): (n: nat)
    ensures 1 <= n <= 4
  {
    if c < '\U{80}' then 1 else if c < '\U{800}' then 2 else if c < '\U{10000}' then 3 else 4
  }

  // Go's len of a string.
  function Len(s: string): nat {
    if s == [] then 0 else RuneLen(s[0]) + Len(s[1..])
  }

  lemma {:induction false} LenConcat(a: string, b: string)
    ensures Len(a + b) == Len(a) + Len(b)
  {
    if a == [] {
      assert a + b == b;
    } else {
      LenConcat(a[1..], b);
      assert (a + b)[1..] == a[1..] + b;
    }
  }

  // ----- strings.TrimPrefix, strings.HasPrefix -----

  predicate HasPrefix(s: string, prefix: string) {
    prefix <= s
  }

  function TrimPrefix(s: string, prefix: string): string {
    if prefix <= s then s[|prefix|..] else s
  }

  lemma PrefixMeaning(s: string, prefix: string)
    ensures HasPrefix(s, prefix) <==> exists rest :: s == prefix + rest
    ensures forall rest :: s == prefix + rest ==> TrimPrefix(s, prefix) == rest
    ensures !HasPrefix(s, prefix) ==> TrimPrefix(s, prefix) == s
  {
    if HasPrefix(s, prefix) {
      assert s == prefix + s[|prefix|..];
    }
    forall rest | s == prefix + rest
      ensures HasPrefix(s, prefix) && TrimPrefix(s, prefix) == rest
    {
      assert s[|prefix|..] == rest;
    }
  }

  // ----- strings.Trim, strings.TrimSpace -----

  function TrimLeft(s: string, cut: char -> bool): string
  {
    if s != [] && cut(s[0]) then TrimLeft(s[1..], cut) else s
  }

  function TrimRight(s: string, cut: char -> bool): string
  {
    if s != [] && cut(s[|s| - 1]) then TrimRight(s[..|s| - 1], cut) else s
  }

  function Trim(s: string, cut: char -> bool): string {
    TrimRight(TrimLeft(s, cut), cut)
  }

  function TrimSpace(s: string): string {
    Trim(s, IsSpace)
  }

  predicate All(s: string, p: char -> bool) {
    forall i :: 0 <= i < |s| ==> p(s[i])
  }

  // What trimming leaves: the middle, when it neither starts nor ends with a cut character.
  lemma {:induction false} TrimMiddle(left: string, mid: string, right: string, cut: char -> bool)
    requires All(left, cut) && All(right, cut)
    requires mid != [] ==> !cut(mid[0]) && !cut(mid[|mid| - 1])
    ensures Trim(left + mid + right, cut) == mid
    decreases |left| + |right|
  {
    if left != [] {
      assert (left + mid + right)[0] == left[0];
      assert (left + mid + right)[1..] == left[1..] + mid + right;
      TrimMiddle(left[1..], mid, right, cut);
    } else if mid == [] {
      assert left + mid + right == right;
      TrimLeftAll(right, cut);
    } else {
      assert left + mid + right == mid + right;
      assert TrimLeft(mid + right, cut) == mid + right;
      TrimRightEnd(mid, right, cut);
    }
  }

  lemma {:induction false} TrimLeftAll(s: string, cut: char -> bool)
    requires All(s, cut)
    ensures TrimLeft(s, cut) == []
  {
    if s != [] {
      TrimLeftAll(s[1..], cut);
    }
  }

  lemma {:induction false} TrimRightEnd(mid: string, right: string, cut: char -> bool)
    requires All(right, cut)
    requires mid != [] ==> !cut(mid[|mid| - 1])
    ensures TrimRight(mid + right, cut) == mid
  {
    if right == [] {
      assert mid + right == mid;
    } else {
      var s := mid + right;
      assert s[|s| - 1] == right[|right| - 1];
      assert s[..|s| - 1] == mid + right[..|right| - 1];
      TrimRightEnd(mid, right[..|right| - 1], cut);
    }
  }

  // Every string is cut characters, its trimmed middle, and cut characters.
  lemma TrimSplit(s: string, cut: char -> bool) returns (left: string, right: string)
    ensures s == left + Trim(s, cut) + right
    ensures All(left, cut) && All(right, cut)
    ensures var t := Trim(s, cut); t != [] ==> !cut(t[0]) && !cut(t[|t| - 1])
  {
    left := TrimLeftSplit(s, cut);
    right := TrimRightSplit(TrimLeft(s, cut), cut);
    assert s == left + (Trim(s, cut) + right);
    assert Trim(s, cut) <= TrimLeft(s, cut);
  }

  lemma {:induction false} TrimLeftSplit(s: string, cut: char -> bool) returns (left: string)
    ensures s == left + TrimLeft(s, cut) && All(left, cut)
    ensures TrimLeft(s, cut) != [] ==> !cut(TrimLeft(s, cut)[0])
  {
    left := [];
    if s != [] && cut(s[0]) {
      var l := TrimLeftSplit(s[1..], cut);
      left := [s[0]] + l;
      assert s == [s[0]] + s[1..];
    }
  }

  lemma {:induction false} TrimRightSplit(s: string, cut: char -> bool) returns (right: string)
    ensures s == TrimRight(s, cut) + right && All(right, cut)
    ensures TrimRight(s, cut) != [] ==> !cut(TrimRight(s, cut)[|TrimRight(s, cut)| - 1])
  {
    right := [];
    if s != [] && cut(s[|s| - 1]) {
      var r := TrimRightSplit(s[..|s| - 1], cut);
      right := r + [s[|s| - 1]];
      assert s == s[..|s| - 1] + [s[|s| - 1]];
    }
  }

  // Trimming around a middle that neither starts nor ends with a cut character.
  lemma TrimAround(prefix: string, core: string, tail: string, cut: char -> bool)
    requires core != [] && !cut(core[0]) && !cut(core[|core| - 1])
    ensures Trim(prefix + core + tail, cut) == TrimLeft(prefix, cut) + core + TrimRight(tail, cut)
  {
    var left := TrimLeftSplit(prefix, cut);
    var right := TrimRightSplit(tail, cut);
    var p, t := TrimLeft(prefix, cut), TrimRight(tail, cut);
    Regroup(left, p, core, t, right);
    MiddleEnds(p, core, t, cut);
    TrimMiddle(left, p + core + t, right, cut);
  }

  lemma Regroup(a: string, b: string, c: string, d: string, e: string)
    ensures (a + b) + c + (d + e) == a + (b + c + d) + e
  {
  }

  lemma MiddleEnds(p: string, core: string, t: string, cut: char -> bool)
    requires core != [] && !cut(core[0]) && !cut(core[|core| - 1])
    requires p != [] ==> !cut(p[0])
    requires t != [] ==> !cut(t[|t| - 1])
    ensures var m := p + core + t; !cut(m[0]) && !cut(m[|m| - 1])
  {
  }

  lemma {:induction false} TrimLead(lead: string, s: string, cut: char -> bool)
    requires All(lead, cut)
    ensures Trim(lead + s, cut) == Trim(s, cut)
  {
    if lead == [] {
      assert lead + s == s;
    } else {
      assert (lead + s)[1..] == lead[1..] + s;
      TrimLead(lead[1..], s, cut);
    }
  }

  lemma TrimAfterTrimLeft(s: string, cut: char -> bool)
    ensures Trim(TrimLeft(s, cut), cut) == Trim(s, cut)
  {
    var left := TrimLeftSplit(s, cut);
    assert s == left + TrimLeft(s, cut);
    TrimLead(left, TrimLeft(s, cut), cut);
  }

  // ----- strings.Split on a one-character separator -----

  // The number of characters before the first c.
  function Before(s: string, c: char): (n: nat)
    ensures n <= |s|
    ensures c !in s[..n]
    ensures n < |s| ==> s[n] == c
  {
    if s == [] || s[0] == c then 0 else
      var n := 1 + Before(s[1..], c);
      assert s[..n] == [s[0]] + s[1..][..n - 1];
      n
  }

  function Split(s: string, sep: char): (parts: seq<string>)
    ensures parts != []
    decreases |s|
  {
    var n := Before(s, sep);
    if n == |s| then [s] else [s[..n]] + Split(s[n + 1..], sep)
  }

  lemma {:induction false} BeforeAt(head: string, c: char, tail: string)
    requires c !in head
    ensures Before(head + [c] + tail, c) == |head|
  {
    if head != [] {
      assert (head + [c] + tail)[1..] == head[1..] + [c] + tail;
      BeforeAt(head[1..], c, tail);
    }
  }

  lemma BeforeNone(s: string, c: char)
    requires c !in s
    ensures Before(s, c) == |s|
  {
  }

  // Splitting at a separator: the part before it, then the split of what follows.
  lemma SplitCons(head: string, sep: char, tail: string)
    requires sep !in head
    ensures Split(head + [sep] + tail, sep) == [head] + Split(tail, sep)
  {
    BeforeAt(head, sep, tail);
    var s := head + [sep] + tail;
    assert s[..|head|] == head && s[|head| + 1..] == tail;
  }

  lemma SplitOne(s: string, sep: char)
    requires sep !in s
    ensures Split(s, sep) == [s]
  {
    BeforeNone(s, sep);
  }

  function Join(parts: seq<string>, sep: char): string
    requires parts != []
  {
    if |parts| == 1 then parts[0] else parts[0] + [sep] + Join(parts[1..], sep)
  }

  // The parts are the text between the separators.
  lemma {:induction false} SplitMeaning(s: string, sep: char)
    ensures forall i :: 0 <= i < |Split(s, sep)| ==> sep !in Split(s, sep)[i]
    ensures Join(Split(s, sep), sep) == s
    decreases |s|
  {
    var n := Before(s, sep);
    if n < |s| {
      SplitMeaning(s[n + 1..], sep);
      assert Split(s, sep)[1..] == Split(s[n + 1..], sep);
      assert s == s[..n] + [sep] + s[n + 1..];
    }
  }

  // ----- strings.Fields -----

  predicate IsWord(w: string) {
    w != [] && All(w, c => !IsSpace(c))
  }

  // The length of the leading run of non-space characters.
  function WordLen(s: string): (n: nat)
    ensures n <= |s|
    ensures forall i :: 0 <= i < n ==> !IsSpace(s[i])
    ensures n < |s| ==> IsSpace(s[n])
  {
    if s == [] || IsSpace(s[0]) then 0 else 1 + WordLen(s[1..])
  }

  function Fields(s: string): (words: seq<string>)
    ensures forall i :: 0 <= i < |words| ==> IsWord(words[i])
    decreases |s|
  {
    if s == [] then []
    else if IsSpace(s[0]) then Fields(s[1..])
    else
      var n := WordLen(s);
      [s[..n]] + Fields(s[n..])
  }
}
