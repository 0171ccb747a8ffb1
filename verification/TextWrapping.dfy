/** Greedy line wrapping. Lengths are Go's: the bytes of the UTF-8 encoding. */
module TextWrapping {
  import opened GoStrings

  // ===== Splitting concatenations into words =====

  lemma {:induction false} FieldsOfSpaces(s: string)
    requires All(s, IsSpace)
    ensures Fields(s) == []
  {
    if s != [] {
      FieldsOfSpaces(s[1..]);
    }
  }

  lemma {:induction false} WordLenOfWord(w: string, rest: string)
    requires All(w, c => !IsSpace(c))
    requires rest == [] || IsSpace(rest[0])
    ensures WordLen(w + rest) == |w|
  {
    if w == [] {
      assert w + rest == rest;
    } else {
      assert (w + rest)[0] == w[0] && (w + rest)[1..] == w[1..] + rest;
      WordLenOfWord(w[1..], rest);
    }
  }

  lemma FieldsOfWord(w: string, rest: string)
    requires IsWord(w)
    requires rest == [] || IsSpace(rest[0])
    ensures Fields(w + rest) == [w] + Fields(rest)
  {
    WordLenOfWord(w, rest);
    assert (w + rest)[0] == w[0];
    assert (w + rest)[..|w|] == w && (w + rest)[|w|..] == rest;
  }

  // Concatenation at a space: the words of both parts.
  lemma {:induction false} FieldsConcat(a: string, b: string)
    requires b == [] || IsSpace(b[0])
    ensures Fields(a + b) == Fields(a) + Fields(b)
    decreases |a|
  {
    if a == [] {
      assert a + b == b;
    } else if IsSpace(a[0]) {
      assert (a + b)[0] == a[0] && (a + b)[1..] == a[1..] + b;
      FieldsConcat(a[1..], b);
    } else {
      var n := WordLen(a);
      var w, rest := a[..n], a[n..];
      assert a == w + rest && IsWord(w);
      FieldsConcat(rest, b);
      FieldsConcatWord(w, rest, b);
    }
  }

  lemma ConcatAssociative<T>(a: seq<T>, b: seq<T>, c: seq<T>)
    ensures (a + b) + c == a + (b + c)
  {
  }

  lemma FieldsConcatWord(w: string, rest: string, b: string)
    requires IsWord(w)
    requires rest == [] || IsSpace(rest[0])
    requires b == [] || IsSpace(b[0])
    requires Fields(rest + b) == Fields(rest) + Fields(b)
    ensures Fields((w + rest) + b) == Fields(w + rest) + Fields(b)
  {
    FieldsOfWord(w, rest);
    FieldsOfWord(w, rest + b);
    ConcatAssociative(w, rest, b);
    ConcatAssociative([w], Fields(rest), Fields(b));
  }

  lemma FieldsAfterSpace(c: char, s: string)
    requires IsSpace(c)
    ensures Fields([c] + s) == Fields(s)
  {
    assert ([c] + s)[1..] == s;
  }

  lemma FieldsTrimmed(s: string)
    ensures Fields(TrimSpace(s)) == Fields(s)
  {
    var left, right := TrimSplit(s, IsSpace);
    var mid := TrimSpace(s);
    FieldsConcat(mid, right);
    FieldsOfSpaces(right);
    LeadingSpaces(left, mid + right);
    assert s == left + (mid + right);
    assert Fields(mid) + [] == Fields(mid);
  }

  lemma {:induction false} LeadingSpaces(left: string, s: string)
    requires All(left, IsSpace)
    ensures Fields(left + s) == Fields(s)
  {
    if left == [] {
      assert left + s == s;
    } else {
      assert left + s == [left[0]] + (left[1..] + s);
      FieldsAfterSpace(left[0], left[1..] + s);
      LeadingSpaces(left[1..], s);
    }
  }

  // ----- What the words of a text are -----

  // Words with gaps before, between and after them.
  ghost function Interleave(gaps: seq<string>, words: seq<string>): string
    requires |gaps| == |words| + 1
  {
    if words == [] then gaps[0] else gaps[0] + (words[0] + Interleave(gaps[1..], words[1..]))
  }

  // Gaps of space characters, not empty between two words.
  ghost predicate AreGaps(gaps: seq<string>) {
    && (forall i :: 0 <= i < |gaps| ==> All(gaps[i], IsSpace))
    && (forall i :: 0 < i < |gaps| - 1 ==> gaps[i] != [])
  }

  lemma {:induction false} FieldsAreWords(gaps: seq<string>, words: seq<string>)
    requires |gaps| == |words| + 1 && AreGaps(gaps)
    requires forall i :: 0 <= i < |words| ==> IsWord(words[i])
    ensures Fields(Interleave(gaps, words)) == words
  {
    if words == [] {
      FieldsOfSpaces(gaps[0]);
    } else {
      var rest := Interleave(gaps[1..], words[1..]);
      assert forall i :: 0 <= i < |gaps[1..]| ==> gaps[1..][i] == gaps[i + 1];
      FieldsAreWords(gaps[1..], words[1..]);
      GapFirst(gaps[1..], words[1..]);
      FieldsOfWord(words[0], rest);
      LeadingSpaces(gaps[0], words[0] + rest);
      assert words == [words[0]] + words[1..];
    }
  }

  lemma GapFirst(gaps: seq<string>, words: seq<string>)
    requires |gaps| == |words| + 1
    requires forall i :: 0 <= i < |gaps| ==> All(gaps[i], IsSpace)
    requires words != [] ==> gaps[0] != []
    ensures var t := Interleave(gaps, words); t == [] || IsSpace(t[0])
  {
    if words != [] {
      assert Interleave(gaps, words)[0] == gaps[0][0];
    }
  }

  // Every text is its words with such gaps, so the words are determined by the space characters.
  lemma {:induction false} TextIsFields(s: string) returns (gaps: seq<string>)
    ensures |gaps| == |Fields(s)| + 1 && AreGaps(gaps)
    ensures s == Interleave(gaps, Fields(s))
    decreases |s|
  {
    if s == [] {
      gaps := [""];
    } else if IsSpace(s[0]) {
      var more := TextIsFields(s[1..]);
      gaps := more[0 := [s[0]] + more[0]];
      assert gaps[1..] == more[1..];
      assert s == [s[0]] + s[1..];
      LongerGap(more, Fields(s[1..]), s[0]);
    } else {
      var n := WordLen(s);
      var more := TextIsFields(s[n..]);
      gaps := [""] + more;
      assert gaps[1..] == more && Fields(s)[1..] == Fields(s[n..]);
      assert s == "" + (s[..n] + s[n..]);
      if |Fields(s[n..])| > 0 {
        FirstGap(s[n..], more);
      }
    }
  }

  lemma LongerGap(gaps: seq<string>, words: seq<string>, c: char)
    requires |gaps| == |words| + 1
    ensures Interleave(gaps[0 := [c] + gaps[0]], words) == [c] + Interleave(gaps, words)
  {
    assert gaps[0 := [c] + gaps[0]][1..] == gaps[1..];
  }

  lemma FirstGap(s: string, gaps: seq<string>)
    requires |gaps| == |Fields(s)| + 1 && s == Interleave(gaps, Fields(s))
    requires Fields(s) != [] && (s == [] || IsSpace(s[0]))
    ensures gaps[0] != []
  {
    var w := Fields(s)[0];
    assert IsWord(w) && s == gaps[0] + (w + Interleave(gaps[1..], Fields(s)[1..]));
  }

  // ===== Lines of a text =====

  // The words of every line.
  ghost function LineWords(text: string): (lines: seq<seq<string>>)
  {
    var lines := Split(text, '\n');
    seq(|lines|, i requires 0 <= i < |lines| => Fields(lines[i]))
  }

  ghost function Flatten(lines: seq<seq<string>>): seq<string> {
    if lines == [] then [] else lines[0] + Flatten(lines[1..])
  }

  // The words of a text are those of its lines, in order.
  lemma {:induction false} WordsOfLines(text: string)
    ensures Flatten(LineWords(text)) == Fields(text)
    decreases |text|
  {
    var n := Before(text, '\n');
    if n == |text| {
      WordsOfOneLine(text);
    } else {
      var head, tail := text[..n], text[n + 1..];
      WordsOfLines(tail);
      assert text == head + ['\n'] + tail;
      WordsOfFirstLine(head, tail);
    }
  }

  lemma WordsOfOneLine(text: string)
    requires '\n' !in text
    ensures Flatten(LineWords(text)) == Fields(text)
  {
    SplitOne(text, '\n');
    assert LineWords(text) == [Fields(text)] + [];
    FlattenCons(Fields(text), []);
  }

  lemma WordsOfFirstLine(head: string, tail: string)
    requires '\n' !in head && Flatten(LineWords(tail)) == Fields(tail)
    ensures Flatten(LineWords(head + ['\n'] + tail)) == Fields(head + ['\n'] + tail)
  {
    LineWordsCons(head, tail);
    FlattenCons(Fields(head), LineWords(tail));
    FieldsConcat(head, ['\n'] + tail);
    FieldsAfterSpace('\n', tail);
    ConcatAssociative(head, ['\n'], tail);
  }

  lemma LineWordsCons(head: string, tail: string)
    requires '\n' !in head
    ensures LineWords(head + ['\n'] + tail) == [Fields(head)] + LineWords(tail)
  {
    SplitCons(head, '\n', tail);
  }

  lemma FlattenCons(line: seq<string>, lines: seq<seq<string>>)
    ensures Flatten([line] + lines) == line + Flatten(lines)
  {
    assert ([line] + lines)[1..] == lines;
  }

  // ----- The length of a line -----

  // The bytes of the words with single spaces between them.
  ghost function LineLen(words: seq<string>): nat {
    if words == [] then 0
    else if |words| == 1 then Len(words[0])
    else Len(words[0]) + 1 + LineLen(words[1..])
  }

  lemma {:induction false} LineLenSnoc(words: seq<string>, w: string)
    requires words != []
    ensures LineLen(words + [w]) == LineLen(words) + 1 + Len(w)
  {
    assert (words + [w])[1..] == words[1..] + [w];
    if |words| > 1 {
      LineLenSnoc(words[1..], w);
    } else {
      assert words[1..] + [w] == [w];
    }
  }

  lemma {:induction false} LineLenPart(before: seq<string>, words: seq<string>, after: seq<string>)
    ensures LineLen(words) <= LineLen(before + words + after)
    decreases |before| + |after|
  {
    var all := before + words + after;
    if before != [] {
      assert all[1..] == before[1..] + words + after;
      LineLenPart(before[1..], words, after);
    } else if after != [] {
      var last := |after| - 1;
      LineLenPart(before, words, after[..last]);
      var shorter := before + words + after[..last];
      assert all == shorter + [after[last]];
      if shorter != [] {
        LineLenSnoc(shorter, after[last]);
      }
    } else {
      assert all == words;
    }
  }

  // The words of a line with single spaces are never longer than the line without the space around it.
  lemma {:induction false} LineLenLeast(line: string)
    ensures LineLen(Fields(line)) <= Len(TrimSpace(line))
    decreases |line|
  {
    var left, right := TrimSplit(line, IsSpace);
    var mid := TrimSpace(line);
    FieldsTrimmed(line);
    if mid != [] {
      var n := WordLen(mid);
      var w, rest := mid[..n], mid[n..];
      assert mid == w + rest && !IsSpace(mid[0]) && IsWord(w);
      FieldsOfWord(w, rest);
      LenConcat(w, rest);
      if rest != [] {
        RestOfLine(line, w, rest);
        LineLenLeast(rest);
      } else {
        assert Fields(rest) == [];
        assert [w] + [] == [w];
      }
    }
  }

  lemma RestOfLine(line: string, w: string, rest: string)
    requires w != [] && rest != [] && IsSpace(rest[0]) && TrimSpace(line) == w + rest
    ensures |rest| < |line|
    ensures Len(TrimSpace(rest)) + 1 <= Len(rest)
    ensures Fields(rest) != []
  {
    EndsInWord(line, w, rest);
    TrimmedOfSpace(rest);
    FieldsNonEmpty(rest, |rest| - 1);
  }

  lemma EndsInWord(line: string, w: string, rest: string)
    requires w != [] && rest != [] && TrimSpace(line) == w + rest
    ensures |rest| < |line| && !IsSpace(rest[|rest| - 1])
  {
    var left, right := TrimSplit(line, IsSpace);
    assert |line| == |left| + |w + rest| + |right|;
    assert (w + rest)[|w + rest| - 1] == rest[|rest| - 1];
  }

  lemma TrimmedOfSpace(s: string)
    requires s != [] && IsSpace(s[0])
    ensures Len(TrimSpace(s)) + 1 <= Len(s)
  {
    var left, right := TrimSplit(s[1..], IsSpace);
    assert s[1..] == left + (TrimSpace(s) + right);
    LenConcat(left, TrimSpace(s) + right);
    LenConcat(TrimSpace(s), right);
  }

  lemma {:induction false} FieldsNonEmpty(s: string, k: nat)
    requires k < |s| && !IsSpace(s[k])
    ensures Fields(s) != []
  {
    if IsSpace(s[0]) {
      FieldsNonEmpty(s[1..], k - 1);
    }
  }

  // ===== The greedy partition is the shortest =====

  ghost predicate FitsWords(words: seq<string>, width: int) {
    |words| <= 1 || LineLen(words) <= width
  }

  ghost predicate NonEmptyLines(lines: seq<seq<string>>) {
    forall i :: 0 <= i < |lines| ==> lines[i] != []
  }

  // The first word of a line would not have fitted on the line before.
  ghost predicate Tight(lines: seq<seq<string>>, width: int)
    requires NonEmptyLines(lines)
  {
    forall i :: 0 <= i < |lines| - 1 ==> LineLen(lines[i]) + 1 + Len(lines[i + 1][0]) > width
  }

  // The first line of another partition, after the words pre, ends within the first tight line.
  lemma EndsWithin(lines: seq<seq<string>>, line: seq<string>, pre: seq<string>, q: seq<string>,
                   rest: seq<string>, width: int)
    requires lines != [] && NonEmptyLines(lines) && Tight(lines, width)
    requires line == pre + q && FitsWords(line, width) && q + rest == Flatten(lines)
    ensures |q| <= |lines[0]|
  {
    var first, more := lines[0], Flatten(lines[1..]);
    assert Flatten(lines) == first + more;
    if |q| > |first| {
      assert lines[1..] != [];
      assert more == lines[1] + Flatten(lines[1..][1..]);
      var x := lines[1][0];
      assert (q + rest)[|first|] == x;
      assert q == first + [x] + q[|first| + 1..] by {
        assert q[..|first|] == (q + rest)[..|first|] == first;
      }
      LineLenSnoc(first, x);
      assert line == pre + (first + [x]) + q[|first| + 1..];
      LineLenPart(pre, first + [x], q[|first| + 1..]);
    }
  }

  // One text cut at two places.
  lemma SplitShorter(a: seq<string>, b: seq<string>, c: seq<string>, d: seq<string>)
    requires a + b == c + d && |a| <= |c|
    ensures c == a + c[|a|..] && b == c[|a|..] + d
  {
    var all := a + b;
    assert a == all[..|a|] == c[..|a|];
    assert b == all[|a|..] == c[|a|..] + d;
  }

  lemma {:induction false} TightIsShortest(lines: seq<seq<string>>, other: seq<seq<string>>, pre: seq<string>,
                                           width: int)
    requires NonEmptyLines(lines) && Tight(lines, width)
    requires forall i :: 0 <= i < |other| ==> FitsWords(other[i], width)
    requires Flatten(other) == pre + Flatten(lines)
    ensures |lines| <= |other|
    decreases |other|
  {
    if lines != [] {
      assert Flatten(lines) == lines[0] + Flatten(lines[1..]);
      assert other != [];
      var line, rest := other[0], other[1..];
      assert Flatten(other) == line + Flatten(rest);
      if |line| <= |pre| {
        SplitShorter(line, Flatten(rest), pre, Flatten(lines));
        TightIsShortest(lines, rest, pre[|line|..], width);
      } else {
        var q := line[|pre|..];
        SplitShorter(pre, Flatten(lines), line, Flatten(rest));
        EndsWithin(lines, line, pre, q, Flatten(rest), width);
        SplitShorter(q, Flatten(rest), lines[0], Flatten(lines[1..]));
        assert forall i :: 0 <= i < |lines[1..]| ==> lines[1..][i] == lines[i + 1];
        TightIsShortest(lines[1..], rest, lines[0][|q|..], width);
      }
    }
  }

  // ===== The layout =====

  ghost function LineText(words: seq<string>): string
    requires words != []
  {
    if |words| == 1 then words[0] else words[0] + " " + LineText(words[1..])
  }

  // Words separated by a space, lines by a space and a newline.
  ghost function Layout(lines: seq<seq<string>>): string
    requires NonEmptyLines(lines)
  {
    if lines == [] then ""
    else if |lines| == 1 then LineText(lines[0])
    else LineText(lines[0]) + " \n" + Layout(lines[1..])
  }

  ghost predicate Words(lines: seq<seq<string>>) {
    forall i :: 0 <= i < |lines| ==> AllWords(lines[i])
  }

  ghost predicate AllWords(words: seq<string>) {
    forall i :: 0 <= i < |words| ==> IsWord(words[i])
  }

  lemma WordChars(w: string)
    requires IsWord(w)
    ensures !IsSpace(w[0]) && !IsSpace(w[|w| - 1]) && '\n' !in w
  {
    assert IsSpace('\n');
  }

  lemma {:induction false} LineTextEnds(words: seq<string>)
    requires words != [] && AllWords(words)
    ensures var t := LineText(words); t != [] && !IsSpace(t[0]) && !IsSpace(t[|t| - 1]) && '\n' !in t
  {
    WordChars(words[0]);
    if |words| > 1 {
      LineTextEnds(words[1..]);
    }
  }

  lemma {:induction false} LineTextFields(words: seq<string>)
    requires words != [] && AllWords(words)
    ensures Fields(LineText(words)) == words
  {
    var w := words[0];
    if |words| == 1 {
      FieldsOfWord(w, "");
      assert w + "" == w && words == [w];
    } else {
      LineTextFields(words[1..]);
      var rest := LineText(words[1..]);
      FieldsOfWord(w, " " + rest);
      FieldsAfterSpace(' ', rest);
      ConcatAssociative(w, " ", rest);
      assert words == [w] + words[1..];
    }
  }

  // Single spaces between words; a newline only after such a space; no space at either end.
  ghost predicate Spaced(r: string) {
    && (forall i :: 0 <= i < |r| && IsSpace(r[i]) ==> 0 < i < |r| - 1 && (r[i] == ' ' || r[i] == '\n'))
    && (forall i :: 0 < i < |r| && r[i] == '\n' ==> r[i - 1] == ' ')
    && (forall i :: 0 < i < |r| && IsSpace(r[i]) && IsSpace(r[i - 1]) ==> r[i - 1] == ' ' && r[i] == '\n')
  }

  lemma SpacedJoin(a: string, gap: string, b: string)
    requires a != [] && b != [] && Spaced(a) && Spaced(b) && (gap == " " || gap == " \n")
    ensures Spaced(a + gap + b)
  {
    var r := a + gap + b;
    assert !IsSpace(a[|a| - 1]) && !IsSpace(b[0]) && IsSpace(' ') && IsSpace('\n');
    forall i | 0 <= i < |r|
      ensures IsSpace(r[i]) ==> 0 < i < |r| - 1 && (r[i] == ' ' || r[i] == '\n')
      ensures i > 0 && r[i] == '\n' ==> r[i - 1] == ' '
      ensures i > 0 && IsSpace(r[i]) && IsSpace(r[i - 1]) ==> r[i - 1] == ' ' && r[i] == '\n'
    {
      if i < |a| {
        assert r[i] == a[i] && (i > 0 ==> r[i - 1] == a[i - 1]);
      } else if i > |a| + |gap| {
        assert r[i] == b[i - |a| - |gap|] && r[i - 1] == b[i - 1 - |a| - |gap|];
      } else {
        assert r[|a| - 1] == a[|a| - 1] && r[|a| + |gap|] == b[0];
        assert r[|a|] == ' ' && (|gap| == 2 ==> r[|a| + 1] == '\n');
      }
    }
  }

  lemma {:induction false} LineTextSpaced(words: seq<string>)
    requires words != [] && AllWords(words)
    ensures LineText(words) != [] && Spaced(LineText(words))
  {
    if |words| > 1 {
      LineTextSpaced(words[1..]);
      SpacedJoin(words[0], " ", LineText(words[1..]));
    }
  }

  lemma {:induction false} LayoutSpaced(lines: seq<seq<string>>)
    requires lines != [] && NonEmptyLines(lines) && Words(lines)
    ensures Layout(lines) != [] && Spaced(Layout(lines))
  {
    LineTextSpaced(lines[0]);
    if |lines| > 1 {
      assert forall i :: 0 <= i < |lines[1..]| ==> lines[1..][i] == lines[i + 1];
      LayoutSpaced(lines[1..]);
      SpacedJoin(LineText(lines[0]), " \n", Layout(lines[1..]));
    }
  }

  lemma {:induction false} LineTextLen(words: seq<string>)
    requires words != []
    ensures Len(LineText(words)) == LineLen(words)
  {
    if |words| > 1 {
      LineTextLen(words[1..]);
      LenConcat(words[0] + " ", LineText(words[1..]));
      LenConcat(words[0], " ");
    }
  }

  // A line of the output: its words, and its length without the space after it.
  lemma PaddedLine(words: seq<string>, pad: string)
    requires words != [] && AllWords(words) && (pad == "" || pad == " ")
    ensures var t := LineText(words) + pad;
            '\n' !in t && Fields(t) == words && Len(TrimSpace(t)) == LineLen(words)
  {
    var t := LineText(words);
    LineTextEnds(words);
    LineTextFields(words);
    LineTextLen(words);
    assert "" + t + pad == t + pad;
    TrimMiddle("", t, pad, IsSpace);
    FieldsTrimmed(t + pad);
  }

  lemma {:induction false} LayoutEnds(lines: seq<seq<string>>)
    requires lines != [] && NonEmptyLines(lines) && Words(lines)
    ensures var t := Layout(lines); t != [] && !IsSpace(t[0]) && !IsSpace(t[|t| - 1])
  {
    LineTextEnds(lines[0]);
    if |lines| > 1 {
      assert forall i :: 0 <= i < |lines[1..]| ==> lines[1..][i] == lines[i + 1];
      LayoutEnds(lines[1..]);
    }
  }

  // A line of text with the words of a line of the partition, and its length.
  ghost predicate Renders(part: string, line: seq<string>) {
    Fields(part) == line && Len(TrimSpace(part)) == LineLen(line)
  }

  ghost predicate AllRender(parts: seq<string>, lines: seq<seq<string>>) {
    |parts| == |lines| && forall i :: 0 <= i < |lines| ==> Renders(parts[i], lines[i])
  }

  lemma AllRenderCons(part: string, parts: seq<string>, line: seq<string>, lines: seq<seq<string>>)
    requires Renders(part, line) && AllRender(parts, lines)
    ensures AllRender([part] + parts, [line] + lines)
  {
  }

  // The lines of the layout, one by one.
  lemma {:induction false} LayoutLines(lines: seq<seq<string>>)
    requires lines != [] && NonEmptyLines(lines) && Words(lines)
    ensures AllRender(Split(Layout(lines), '\n'), lines)
  {
    var t := LineText(lines[0]);
    if |lines| == 1 {
      PaddedLine(lines[0], "");
      assert t + "" == t;
      SplitOne(t, '\n');
      AllRenderCons(t, [], lines[0], []);
      assert lines == [lines[0]] + [];
      assert [t] == [t] + [];
    } else {
      assert forall i :: 0 <= i < |lines[1..]| ==> lines[1..][i] == lines[i + 1];
      LayoutLines(lines[1..]);
      PaddedLine(lines[0], " ");
      FirstLine(lines);
      AllRenderCons(t + " ", Split(Layout(lines[1..]), '\n'), lines[0], lines[1..]);
      assert lines == [lines[0]] + lines[1..];
    }
  }

  lemma FirstLine(lines: seq<seq<string>>)
    requires |lines| > 1 && NonEmptyLines(lines) && Words(lines)
    ensures NonEmptyLines(lines[1..])
    ensures Split(Layout(lines), '\n') == [LineText(lines[0]) + " "] + Split(Layout(lines[1..]), '\n')
  {
    var t, rest := LineText(lines[0]), Layout(lines[1..]);
    assert forall i :: 0 <= i < |lines[1..]| ==> lines[1..][i] == lines[i + 1];
    PaddedLine(lines[0], " ");
    NewlineAfterSpace(t, rest);
    SplitCons(t + " ", '\n', rest);
  }

  lemma NewlineAfterSpace(t: string, rest: string)
    ensures t + " \n" + rest == (t + " ") + ['\n'] + rest
  {
  }

  lemma {:induction false} FlattenSnoc(lines: seq<seq<string>>, line: seq<string>)
    ensures Flatten(lines + [line]) == Flatten(lines) + line
  {
    if lines == [] {
      assert [] + [line] == [line];
      assert Flatten([line][1..]) == [];
    } else {
      assert (lines + [line])[1..] == lines[1..] + [line];
      FlattenSnoc(lines[1..], line);
    }
  }

  lemma {:induction false} LineTextSnoc(words: seq<string>, w: string)
    requires words != []
    ensures LineText(words + [w]) == LineText(words) + " " + w
  {
    assert (words + [w])[1..] == words[1..] + [w];
    if |words| > 1 {
      LineTextSnoc(words[1..], w);
    } else {
      assert words[1..] + [w] == [w];
    }
  }

  lemma {:induction false} LayoutSnoc(lines: seq<seq<string>>, line: seq<string>)
    requires NonEmptyLines(lines) && line != []
    ensures Layout(lines + [line]) == if lines == [] then LineText(line) else Layout(lines) + " \n" + LineText(line)
  {
    if lines == [] {
      assert [] + [line] == [line];
    } else {
      assert (lines + [line])[1..] == lines[1..] + [line];
      assert forall i :: 0 <= i < |lines[1..]| ==> lines[1..][i] == lines[i + 1];
      LayoutSnoc(lines[1..], line);
    }
  }

  // ===== The greedy loop =====

  // The lines built so far: no line could take its successor's first word, and every line fits.
  ghost predicate Greedy(lines: seq<seq<string>>, words: seq<string>, width: int) {
    && NonEmptyLines(lines) && Words(lines) && Tight(lines, width)
    && (forall i :: 0 <= i < |lines| ==> FitsWords(lines[i], width))
    && Flatten(lines) == words
  }

  lemma TightSnoc(lines: seq<seq<string>>, line: seq<string>, width: int)
    requires NonEmptyLines(lines) && Tight(lines, width) && line != []
    requires lines != [] ==> LineLen(lines[|lines| - 1]) + 1 + Len(line[0]) > width
    ensures NonEmptyLines(lines + [line]) && Tight(lines + [line], width)
  {
    var all := lines + [line];
    forall i | 0 <= i < |all| - 1
      ensures LineLen(all[i]) + 1 + Len(all[i + 1][0]) > width
    {
      assert all[i] == lines[i];
    }
  }

  lemma GreedySnoc(lines: seq<seq<string>>, words: seq<string>, line: seq<string>, width: int)
    requires Greedy(lines, words, width) && line != [] && AllWords(line) && FitsWords(line, width)
    requires lines != [] ==> LineLen(lines[|lines| - 1]) + 1 + Len(line[0]) > width
    ensures Greedy(lines + [line], words + line, width)
  {
    TightSnoc(lines, line, width);
    FlattenSnoc(lines, line);
  }

  lemma GreedyInit(lines: seq<seq<string>>, words: seq<string>, width: int)
    requires Greedy(lines, words, width) && lines != []
    ensures var init, last := lines[..|lines| - 1], lines[|lines| - 1];
            && Greedy(init, Flatten(init), width) && words == Flatten(init) + last && AllWords(last)
            && (init != [] ==> LineLen(init[|init| - 1]) + 1 + Len(last[0]) > width)
  {
    var init, last := lines[..|lines| - 1], lines[|lines| - 1];
    assert lines == init + [last];
    assert forall i :: 0 <= i < |init| ==> init[i] == lines[i];
    FlattenSnoc(init, last);
  }

  // A word that does not fit starts a line.
  lemma NewLine(lines: seq<seq<string>>, words: seq<string>, w: string, width: int)
    requires Greedy(lines, words, width) && IsWord(w)
    requires lines != [] ==> LineLen(lines[|lines| - 1]) + 1 + Len(w) > width
    ensures Greedy(lines + [[w]], words + [w], width)
  {
    GreedySnoc(lines, words, [w], width);
  }

  // A word that fits extends the last line.
  lemma ExtendLine(lines: seq<seq<string>>, words: seq<string>, w: string, width: int)
    requires Greedy(lines, words, width) && IsWord(w) && lines != []
    requires LineLen(lines[|lines| - 1]) + 1 + Len(w) <= width
    ensures Greedy(lines[..|lines| - 1] + [lines[|lines| - 1] + [w]], words + [w], width)
    ensures LineLen(lines[|lines| - 1] + [w]) == LineLen(lines[|lines| - 1]) + 1 + Len(w)
  {
    var init, last := lines[..|lines| - 1], lines[|lines| - 1];
    GreedyInit(lines, words, width);
    LineLenSnoc(last, w);
    GreedySnoc(init, Flatten(init), last + [w], width);
    ConcatAssociative(Flatten(init), last, [w]);
  }

  ghost predicate Fits(line: string, width: int) {
    |Fields(line)| <= 1 || Len(TrimSpace(line)) <= width
  }

  ghost predicate AllFit(text: string, width: int) {
    forall i :: 0 <= i < |Split(text, '\n')| ==> Fits(Split(text, '\n')[i], width)
  }

  lemma LayoutIsParsed(lines: seq<seq<string>>, width: int)
    requires lines != [] && NonEmptyLines(lines) && Words(lines)
    requires forall i :: 0 <= i < |lines| ==> FitsWords(lines[i], width)
    ensures LineWords(Layout(lines)) == lines && AllFit(Layout(lines), width)
  {
    LayoutLines(lines);
  }

  lemma ShortestLayout(lines: seq<seq<string>>, words: seq<string>, width: int, other: string)
    requires Greedy(lines, words, width) && Fields(other) == words && AllFit(other, width)
    ensures |lines| <= |Split(other, '\n')|
  {
    var otherLines := LineWords(other);
    WordsOfLines(other);
    forall i | 0 <= i < |otherLines|
      ensures FitsWords(otherLines[i], width)
    {
      assert Fits(Split(other, '\n')[i], width);
      LineLenLeast(Split(other, '\n')[i]);
    }
    assert Flatten(otherLines) == [] + Flatten(lines);
    TightIsShortest(lines, otherLines, [], width);
  }

  lemma {:induction false} WordsInLine(lines: seq<seq<string>>, i: nat)
    requires i < |lines|
    ensures forall w :: w in lines[i] ==> w in Flatten(lines)
  {
    if i > 0 {
      WordsInLine(lines[1..], i - 1);
    }
  }

  // When every word fits the width, no line is longer, the space after it not counted.
  lemma NoLineTooLong(lines: seq<seq<string>>, words: seq<string>, width: int)
    requires lines != [] && Greedy(lines, words, width)
    requires forall w :: w in words ==> Len(w) <= width
    ensures var parts := Split(Layout(lines), '\n');
            forall i :: 0 <= i < |parts| ==> Len(TrimSpace(parts[i])) <= width
  {
    LayoutLines(lines);
    forall i | 0 <= i < |lines|
      ensures LineLen(lines[i]) <= width
    {
      if |lines[i]| == 1 {
        WordsInLine(lines, i);
        assert lines[i][0] in lines[i];
      }
    }
  }

  ghost predicate LinesWithin(text: string, width: int) {
    forall i :: 0 <= i < |Split(text, '\n')| ==> Len(TrimSpace(Split(text, '\n')[i])) <= width
  }

  // The first word of a line would not have fitted on the line before.
  ghost predicate BreaksLate(text: string, width: int) {
    forall i :: 0 < i < |Split(text, '\n')| ==>
      && Fields(Split(text, '\n')[i]) != []
      && Len(TrimSpace(Split(text, '\n')[i - 1])) + 1 + Len(Fields(Split(text, '\n')[i])[0]) > width
  }

  lemma LayoutBreaksLate(lines: seq<seq<string>>, width: int)
    requires lines != [] && NonEmptyLines(lines) && Words(lines) && Tight(lines, width)
    ensures BreaksLate(Layout(lines), width)
  {
    LayoutLines(lines);
    var parts := Split(Layout(lines), '\n');
    forall i | 0 < i < |parts|
      ensures Fields(parts[i]) != []
      ensures Len(TrimSpace(parts[i - 1])) + 1 + Len(Fields(parts[i])[0]) > width
    {
      assert Renders(parts[i - 1], lines[i - 1]) && Renders(parts[i], lines[i]);
    }
  }

  // r is the greedy layout of the words of text, and a best one.
  ghost predicate Wraps(r: string, text: string, width: int) {
    && Fields(r) == Fields(text)
    && AllFit(r, width)
    && (forall other :: Fields(other) == Fields(text) && AllFit(other, width) ==>
          |Split(r, '\n')| <= |Split(other, '\n')|)
    && Spaced(r) && BreaksLate(r, width)
    && (0 <= width && (forall w :: w in Fields(text) ==> Len(w) <= width) ==> LinesWithin(r, width))
  }

  // What the loop has written: a line break before a first word that is too long, the layout,
  // and the space after the last word.
  ghost function Output(lead: string, lines: seq<seq<string>>): string
    requires NonEmptyLines(lines)
  {
    if lines == [] then "" else lead + Layout(lines) + " "
  }

  lemma Wrapped(text: string, lines: seq<seq<string>>, lead: string, wrapped: string, width: int)
    requires Greedy(lines, Fields(text), width)
    requires lead == "" || lead == "\n"
    requires wrapped == Output(lead, lines)
    ensures Wraps(TrimSpace(wrapped), text, width)
  {
    if lines == [] {
      SplitOne("", '\n');
      assert Fields("") == [];
    } else {
      var t := Layout(lines);
      LayoutEnds(lines);
      TrimMiddle(lead, t, " ", IsSpace);
      LayoutIsParsed(lines, width);
      WordsOfLines(t);
      LayoutSpaced(lines);
      LayoutBreaksLate(lines, width);
      assert |Split(t, '\n')| == |LineWords(t)| == |lines|;
      if forall w :: w in Fields(text) ==> Len(w) <= width {
        NoLineTooLong(lines, Fields(text), width);
      }
      forall other | Fields(other) == Fields(text) && AllFit(other, width)
        ensures |lines| <= |Split(other, '\n')|
      {
        ShortestLayout(lines, Fields(text), width, other);
      }
    }
  }

  lemma OutputBreak(lead: string, lines: seq<seq<string>>, w: string)
    requires NonEmptyLines(lines)
    ensures NonEmptyLines(lines + [[w]])
    ensures Output(if lines == [] then "\n" else lead, lines + [[w]]) == Output(lead, lines) + "\n" + (w + " ")
  {
    LayoutSnoc(lines, [w]);
    if lines == [] {
      assert "\n" + w + " " == "" + "\n" + (w + " ");
    } else {
      RegroupBreak(lead, Layout(lines), w);
    }
  }

  lemma RegroupBreak(lead: string, t: string, w: string)
    ensures lead + (t + " \n" + w) + " " == (lead + t + " ") + "\n" + (w + " ")
  {
  }

  lemma OutputStay(lead: string, lines: seq<seq<string>>, w: string)
    requires NonEmptyLines(lines) && (lines == [] ==> lead == "")
    ensures NonEmptyLines(Stay(lines, w))
    ensures Output(lead, Stay(lines, w)) == Output(lead, lines) + (w + " ")
  {
    if lines == [] {
      assert "" + w + " " == "" + (w + " ");
    } else {
      LayoutExtended(lines, w);
      RegroupStay(lead, Layout(lines), w);
    }
  }

  lemma RegroupStay(lead: string, t: string, w: string)
    ensures lead + (t + " " + w) + " " == (lead + t + " ") + (w + " ")
  {
  }

  lemma LayoutExtended(lines: seq<seq<string>>, w: string)
    requires NonEmptyLines(lines) && lines != []
    ensures NonEmptyLines(Stay(lines, w))
    ensures Layout(Stay(lines, w)) == Layout(lines) + " " + w
  {
    var init, last := lines[..|lines| - 1], lines[|lines| - 1];
    assert lines == init + [last];
    LayoutSnoc(init, last);
    LayoutSnoc(init, last + [w]);
    LineTextSnoc(last, w);
    if init != [] {
      RegroupLine(Layout(init), LineText(last), w);
    }
  }

  lemma RegroupLine(a: string, b: string, w: string)
    ensures a + " \n" + (b + " " + w) == (a + " \n" + b) + " " + w
  {
  }

  // The state of the loop after some words; length is that of the last line with its space.
  ghost predicate Written(wrapped: string, length: int, lead: string, lines: seq<seq<string>>,
                          words: seq<string>, width: int) {
    && Greedy(lines, words, width)
    && (lines == [] <==> words == [])
    && (lead == "" || (lead == "\n" && lines != []))
    && wrapped == Output(lead, lines)
    && length == if lines == [] then 0 else LineLen(lines[|lines| - 1]) + 1
  }

  lemma BreakStep(wrapped: string, length: int, lead: string, lines: seq<seq<string>>, words: seq<string>,
                  w: string, width: int)
    requires Written(wrapped, length, lead, lines, words, width) && IsWord(w) && length + Len(w) > width
    ensures Written(wrapped + "\n" + (w + " "), Len(w) + 1, if lines == [] then "\n" else lead, lines + [[w]],
              words + [w], width)
  {
    NewLine(lines, words, w, width);
    OutputBreak(lead, lines, w);
  }

  lemma StayStep(wrapped: string, length: int, lead: string, lines: seq<seq<string>>, words: seq<string>,
                 w: string, width: int)
    requires Written(wrapped, length, lead, lines, words, width) && IsWord(w) && length + Len(w) <= width
    ensures Written(wrapped + (w + " "), length + Len(w) + 1, lead, Stay(lines, w), words + [w], width)
  {
    OutputStay(lead, lines, w);
    if lines == [] {
      NewLine(lines, words, w, width);
      assert [] + [[w]] == [[w]];
    } else {
      ExtendLine(lines, words, w, width);
    }
  }

  ghost function Stay(lines: seq<seq<string>>, w: string): seq<seq<string>> {
    if lines == [] then [[w]] else lines[..|lines| - 1] + [lines[|lines| - 1] + [w]]
  }

  // One turn of the loop, whichever branch it takes.
  lemma Turn(wrapped: string, length: int, lead: string, lines: seq<seq<string>>, words: seq<string>,
             w: string, width: int, wrapped': string, length': int)
    returns (lead': string, lines': seq<seq<string>>)
    requires Written(wrapped, length, lead, lines, words, width) && IsWord(w)
    requires length + Len(w) > width ==> wrapped' == wrapped + "\n" + (w + " ") && length' == Len(w) + 1
    requires length + Len(w) <= width ==> wrapped' == wrapped + (w + " ") && length' == length + Len(w) + 1
    ensures Written(wrapped', length', lead', lines', words + [w], width)
  {
    if length + Len(w) > width {
      BreakStep(wrapped, length, lead, lines, words, w, width);
      lead', lines' := if lines == [] then "\n" else lead, lines + [[w]];
    } else {
      StayStep(wrapped, length, lead, lines, words, w, width);
      lead', lines' := lead, Stay(lines, w);
    }
  }

  // The same words; every line fits, the space after it not counted, unless it is one long word;
  // no line could have taken the next one's first word; no other layout of the words, whatever its
  // spacing, has fewer lines that fit; words are separated by single spaces, lines by a space and a
  // newline. If all words fit, so do all lines.
  method WrapText(text: string, lineWidth: int) returns (r: string)
    ensures Fields(r) == Fields(text)
    ensures forall i :: 0 <= i < |Split(r, '\n')| ==>
              |Fields(Split(r, '\n')[i])| <= 1 || Len(TrimSpace(Split(r, '\n')[i])) <= lineWidth
    ensures forall i :: 0 < i < |Split(r, '\n')| ==>
              Fields(Split(r, '\n')[i]) != [] &&
              Len(TrimSpace(Split(r, '\n')[i - 1])) + 1 + Len(Fields(Split(r, '\n')[i])[0]) > lineWidth
    ensures forall other ::
              (&& Fields(other) == Fields(text)
               && forall i :: 0 <= i < |Split(other, '\n')| ==>
                    |Fields(Split(other, '\n')[i])| <= 1 || Len(TrimSpace(Split(other, '\n')[i])) <= lineWidth)
              ==> |Split(r, '\n')| <= |Split(other, '\n')|
    ensures forall i :: 0 <= i < |r| && IsSpace(r[i]) ==> 0 < i < |r| - 1 && (r[i] == ' ' || r[i] == '\n')
    ensures forall i :: 0 < i < |r| && r[i] == '\n' ==> r[i - 1] == ' '
    ensures forall i :: 0 < i < |r| && IsSpace(r[i]) && IsSpace(r[i - 1]) ==> r[i - 1] == ' ' && r[i] == '\n'
    ensures 0 <= lineWidth && (forall w :: w in Fields(text) ==> Len(w) <= lineWidth) ==>
              forall i :: 0 <= i < |Split(r, '\n')| ==> Len(TrimSpace(Split(r, '\n')[i])) <= lineWidth
  {
    r := Wrapping(text, lineWidth);
    FitSpelledOut(r, lineWidth);
    LateSpelledOut(r, lineWidth);
    FewestSpelledOut(r, text, lineWidth);
  }

  lemma FitSpelledOut(r: string, width: int)
    requires AllFit(r, width)
    ensures forall i :: 0 <= i < |Split(r, '\n')| ==>
              |Fields(Split(r, '\n')[i])| <= 1 || Len(TrimSpace(Split(r, '\n')[i])) <= width
  {
    forall i | 0 <= i < |Split(r, '\n')|
      ensures |Fields(Split(r, '\n')[i])| <= 1 || Len(TrimSpace(Split(r, '\n')[i])) <= width
    {
      assert Fits(Split(r, '\n')[i], width);
    }
  }

  lemma LateSpelledOut(r: string, width: int)
    requires BreaksLate(r, width)
    ensures forall i :: 0 < i < |Split(r, '\n')| ==>
              Fields(Split(r, '\n')[i]) != [] &&
              Len(TrimSpace(Split(r, '\n')[i - 1])) + 1 + Len(Fields(Split(r, '\n')[i])[0]) > width
  {
  }

  lemma FewestSpelledOut(r: string, text: string, width: int)
    requires forall other :: Fields(other) == Fields(text) && AllFit(other, width) ==>
               |Split(r, '\n')| <= |Split(other, '\n')|
    ensures forall other ::
              (&& Fields(other) == Fields(text)
               && forall i :: 0 <= i < |Split(other, '\n')| ==>
                    |Fields(Split(other, '\n')[i])| <= 1 || Len(TrimSpace(Split(other, '\n')[i])) <= width)
              ==> |Split(r, '\n')| <= |Split(other, '\n')|
  {
    forall other | Fields(other) == Fields(text) &&
                   (forall i :: 0 <= i < |Split(other, '\n')| ==>
                      |Fields(Split(other, '\n')[i])| <= 1 || Len(TrimSpace(Split(other, '\n')[i])) <= width)
      ensures |Split(r, '\n')| <= |Split(other, '\n')|
    {
      assert AllFit(other, width) by {
        forall i | 0 <= i < |Split(other, '\n')|
          ensures Fits(Split(other, '\n')[i], width)
        {
        }
      }
    }
  }

  method Wrapping(text: string, lineWidth: int) returns (r: string)
    ensures Wraps(r, text, lineWidth)
  {
    var words := Fields(text);
    var wrapped := "";
    var currentLineLength := 0;
    ghost var lines: seq<seq<string>>, lead, done: seq<string> := [], "", [];
    for k := 0 to |words|
      invariant done == words[..k]
      invariant Written(wrapped, currentLineLength, lead, lines, done, lineWidth)
    {
      var word := words[k];
      ghost var before, length := wrapped, currentLineLength;
      if currentLineLength + Len(word) > lineWidth {
        wrapped := wrapped + "\n";
        currentLineLength := 0;
      }
      wrapped := wrapped + (word + " ");
      currentLineLength := currentLineLength + Len(word) + 1;
      lead, lines := Turn(before, length, lead, lines, done, word, lineWidth, wrapped, currentLineLength);
      done := done + [word];
    }
    r := TrimSpace(wrapped);
    Wrapped(text, lines, lead, wrapped, lineWidth);
  }
}
