/** The text format of the alternatives of a parameter, `{"key": "value", ...}`, and the
    parser that extracts the keys a user may choose from. */
module ParameterAlternatives {
  import opened Wrappers
  import opened GoStrings

  predicate IsQuote(c: char) {
    c == '\"' || c == '\''
  }

  predicate IsBrace(c: char) {
    c == '{' || c == '}'
  }

  // ----- removeDuplicates -----

  // Every element once, at its first occurrence.
  function Dedup(s: seq<string>): seq<string> {
    if s == [] then [] else
      var d := Dedup(s[..|s| - 1]);
      if s[|s| - 1] in d then d else d + [s[|s| - 1]]
  }

  method RemoveDuplicates(slice: seq<string>) returns (result: seq<string>)
    ensures result == Dedup(slice)
  {
    var seen: set<string> := {};
    result := [];
    for k := 0 to |slice|
      invariant result == Dedup(slice[..k])
      invariant forall x :: x in seen <==> x in result
    {
      assert slice[..k + 1][..k] == slice[..k];
      if slice[k] !in seen {
        seen := seen + {slice[k]};
        result := result + [slice[k]];
      }
    }
    assert slice[..|slice|] == slice;
  }

  // The position of the first occurrence of x.
  function FirstIndex(s: seq<string>, x: string): (i: nat)
    requires x in s
    ensures i < |s| && s[i] == x
    ensures x !in s[..i]
  {
    if s[0] == x then 0 else
      var i := 1 + FirstIndex(s[1..], x);
      assert s[..i] == [s[0]] + s[1..][..i - 1];
      i
  }

  lemma {:induction false} DedupMeaning(s: seq<string>)
    ensures forall x :: x in Dedup(s) <==> x in s
    ensures forall i, j :: 0 <= i < j < |Dedup(s)| ==>
              Dedup(s)[i] in s && Dedup(s)[j] in s &&
              FirstIndex(s, Dedup(s)[i]) < FirstIndex(s, Dedup(s)[j])
  {
    if s != [] {
      var init, last := s[..|s| - 1], s[|s| - 1];
      assert s == init + [last];
      DedupMeaning(init);
      var d, e := Dedup(init), Dedup(s);
      assert forall x :: x in s <==> x in init || x == last;
      forall i, j | 0 <= i < j < |e|
        ensures FirstIndex(s, e[i]) < FirstIndex(s, e[j])
      {
        assert e[i] == d[i] && e[i] in init;
        FirstIndexExtends(init, last, e[i]);
        if j < |d| {
          assert e[j] == d[j] && e[j] in init;
          FirstIndexExtends(init, last, e[j]);
        } else {
          FirstIndexNew(init, last);
        }
      }
    }
  }

  lemma {:induction false} FirstIndexExtends(s: seq<string>, y: string, x: string)
    requires x in s
    ensures FirstIndex(s + [y], x) == FirstIndex(s, x)
  {
    if s[0] != x {
      assert (s + [y])[1..] == s[1..] + [y];
      FirstIndexExtends(s[1..], y, x);
    }
  }

  lemma {:induction false} FirstIndexNew(s: seq<string>, y: string)
    requires y !in s
    ensures FirstIndex(s + [y], y) == |s|
  {
    if s != [] {
      assert (s + [y])[1..] == s[1..] + [y];
      FirstIndexNew(s[1..], y);
    }
  }

  // ----- parseParameterAlternatives -----

  function PairKey(pair: string): Option<string> {
    var parts := Split(TrimSpace(pair), ':');
    if |parts| != 2 then None else
      var key := Trim(TrimSpace(parts[0]), IsQuote);
      if key == "" then None else Some(key)
  }

  function PairKeys(pairs: seq<string>): seq<string> {
    if pairs == [] then [] else
      match PairKey(pairs[0])
      case None => PairKeys(pairs[1..])
      case Some(key) => [key] + PairKeys(pairs[1..])
  }

  lemma PairKeysStep(done: seq<string>, pairs: seq<string>, k: nat)
    requires k < |pairs|
    ensures done + PairKeys(pairs[k..]) ==
            match PairKey(pairs[k])
            case None => done + PairKeys(pairs[k + 1..])
            case Some(key) => (done + [key]) + PairKeys(pairs[k + 1..])
  {
    assert pairs[k..][0] == pairs[k] && pairs[k..][1..] == pairs[k + 1..];
    match PairKey(pairs[k])
    case None =>
    case Some(key) =>
      assert (done + [key]) + PairKeys(pairs[k + 1..]) == done + ([key] + PairKeys(pairs[k + 1..]));
  }

  function Alternatives(value: string): seq<string> {
    var cleaned := Trim(Trim(value, IsQuote), IsBrace);
    if cleaned == "" then [] else Dedup(PairKeys(Split(cleaned, ',')))
  }

  method ParseParameterAlternatives(value: string) returns (r: seq<string>)
    ensures r == Alternatives(value)
  {
    var cleaned := Trim(value, IsQuote);
    cleaned := Trim(cleaned, IsBrace);
    if cleaned == "" {
      return [];
    }
    var alternatives := [];
    var pairs := Split(cleaned, ',');
    assert pairs[0..] == pairs;
    for k := 0 to |pairs|
      invariant alternatives + PairKeys(pairs[k..]) == PairKeys(pairs)
      invariant pairs == Split(cleaned, ',')
    {
      PairKeysStep(alternatives, pairs, k);
      var parts := Split(TrimSpace(pairs[k]), ':');
      if |parts| == 2 {
        var key := Trim(TrimSpace(parts[0]), IsQuote);
        if key != "" {
          alternatives := alternatives + [key];
        }
      }
    }
    assert alternatives == PairKeys(pairs) by {
      assert pairs[|pairs|..] == [];
      assert alternatives + [] == alternatives;
    }
    r := RemoveDuplicates(alternatives);
  }

  // A pair is read when it has exactly one colon, with the text before it as key.
  ghost predicate Reads(pair: string, key: string, head: string, tail: string) {
    && pair == head + [':'] + tail && ':' !in head && ':' !in tail
    && key == Trim(TrimSpace(head), IsQuote) && key != ""
  }

  lemma PairKeyMeaning(pair: string, key: string)
    ensures PairKey(pair) == Some(key) <==> exists head, tail :: Reads(pair, key, head, tail)
  {
    if PairKey(pair) == Some(key) {
      PairKeyReads(pair, key);
    }
    if head, tail :| Reads(pair, key, head, tail) {
      PairKeyOf(head, tail);
    }
  }

  lemma PairKeyReads(pair: string, key: string)
    requires PairKey(pair) == Some(key)
    ensures exists head, tail :: Reads(pair, key, head, tail)
  {
    var left, right := TrimSplit(pair, IsSpace);
    var parts := Split(TrimSpace(pair), ':');
    SplitMeaning(TrimSpace(pair), ':');
    assert Join(parts, ':') == parts[0] + [':'] + Join(parts[1..], ':');
    var head, tail := left + parts[0], parts[1] + right;
    assert pair == head + [':'] + tail;
    TrimLead(left, parts[0], IsSpace);
    assert Reads(pair, key, head, tail);
  }

  lemma PairKeyOf(head: string, tail: string)
    requires ':' !in head && ':' !in tail
    ensures PairKey(head + [':'] + tail) ==
            var key := Trim(TrimSpace(head), IsQuote); if key == "" then None else Some(key)
  {
    TrimAround(head, [':'], tail, IsSpace);
    var h, t := TrimLeft(head, IsSpace), TrimRight(tail, IsSpace);
    var left := TrimLeftSplit(head, IsSpace);
    var right := TrimRightSplit(tail, IsSpace);
    assert ':' !in h && ':' !in t;
    SplitCons(h, ':', t);
    SplitOne(t, ':');
    TrimAfterTrimLeft(head, IsSpace);
  }

  ghost predicate ReadAt(pairs: seq<string>, key: string, k: int, head: string, tail: string) {
    0 <= k < |pairs| && Reads(pairs[k], key, head, tail)
  }

  // The alternatives of a text: what is read from its parts between commas, without the quotes around
  // the text and the braces inside them.
  lemma AlternativesMeaning(value: string, parts: seq<string>, x: string)
    requires parts == Split(Trim(Trim(value, IsQuote), IsBrace), ',')
    ensures x in Alternatives(value) <==> exists k, head, tail :: ReadAt(parts, x, k, head, tail)
  {
    PairKeysRead(parts, x);
    DedupMeaning(PairKeys(parts));
    assert x in Dedup(PairKeys(parts)) <==> x in PairKeys(parts);
    if Trim(Trim(value, IsQuote), IsBrace) == "" {
      assert parts == [""];
      assert forall k, head, tail :: !ReadAt(parts, x, k, head, tail);
    }
  }

  lemma {:induction false} PairKeysRead(pairs: seq<string>, x: string)
    ensures x in PairKeys(pairs) <==> exists k, head, tail :: ReadAt(pairs, x, k, head, tail)
  {
    if pairs != [] {
      var rest := pairs[1..];
      PairKeyMeaning(pairs[0], x);
      PairKeysRead(rest, x);
      if head, tail :| Reads(pairs[0], x, head, tail) {
        assert ReadAt(pairs, x, 0, head, tail);
      }
      if k, head, tail :| ReadAt(rest, x, k, head, tail) {
        assert ReadAt(pairs, x, k + 1, head, tail);
      }
      if k, head, tail :| ReadAt(pairs, x, k, head, tail) && k > 0 {
        assert ReadAt(rest, x, k - 1, head, tail);
      }
    }
  }

  // ----- The format, and the parser as its inverse -----

  // Keys are bare or in either kind of quotes; values are text, with or without quotes.
  datatype Quoting = Bare | Single | Double

  datatype Choice = Choice(key: string, quoting: Quoting, value: string)

  function Mark(q: Quoting): string {
    match q
    case Bare => ""
    case Single => "'"
    case Double => "\""
  }

  function RenderKey(c: Choice): string {
    Mark(c.quoting) + c.key + Mark(c.quoting)
  }

  function RenderChoice(c: Choice): string {
    RenderKey(c) + ": " + c.value
  }

  function RenderBody(choices: seq<Choice>): string
    requires choices != []
  {
    if |choices| == 1 then
      RenderChoice(choices[0])
    else
      RenderChoice(choices[0]) + ", " + RenderBody(choices[1..])
  }

  function Render(choices: seq<Choice>): string {
    "{" + (if choices == [] then "" else RenderBody(choices)) + "}"
  }

  predicate Plain(s: string) {
    ',' !in s && ':' !in s
  }

  predicate AllPlain(choices: seq<Choice>) {
    forall i :: 0 <= i < |choices| ==> Plain(choices[i].key) && Plain(choices[i].value)
  }

  // The body neither starts nor ends with a brace.
  predicate NoOuterBrace(choices: seq<Choice>) {
    choices != [] ==>
      var first, last := choices[0], choices[|choices| - 1];
      && (first.quoting.Bare? && first.key != "" ==> !IsBrace(first.key[0]))
      && (last.value != "" ==> !IsBrace(last.value[|last.value| - 1]))
  }

  function ReadKey(c: Choice): string {
    if c.quoting.Bare? then Trim(TrimSpace(c.key), IsQuote) else Trim(c.key, IsQuote)
  }

  // The keys a reader gets back from the choices: without quotes at their ends, if any is left.
  function ReadableKeys(choices: seq<Choice>): seq<string> {
    if choices == [] then [] else
      var key := ReadKey(choices[0]);
      (if key == "" then [] else [key]) + ReadableKeys(choices[1..])
  }

  function KeysOf(choices: seq<Choice>): seq<string> {
    seq(|choices|, i requires 0 <= i < |choices| => choices[i].key)
  }

  lemma SpacelessEnds(m: char, k: string)
    requires IsQuote(m)
    ensures TrimSpace([m] + k + [m]) == [m] + k + [m]
  {
    var quoted := [m] + k + [m];
    assert quoted == "" + quoted + "";
    TrimMiddle("", quoted, "", IsSpace);
  }

  lemma TrimMarked(m: char, k: string)
    requires IsQuote(m)
    ensures Trim([m] + k + [m], IsQuote) == Trim(k, IsQuote)
  {
    var left, right := TrimSplit(k, IsQuote);
    var mid := Trim(k, IsQuote);
    assert [m] + k + [m] == ([m] + left) + mid + (right + [m]);
    TrimMiddle([m] + left, mid, right + [m], IsQuote);
  }

  lemma TrimKey(c: Choice)
    ensures Trim(TrimSpace(RenderKey(c)), IsQuote) == ReadKey(c)
  {
    match c.quoting
    case Bare =>
      assert RenderKey(c) == c.key;
    case Single =>
      SpacelessEnds('\'', c.key);
      TrimMarked('\'', c.key);
    case Double =>
      SpacelessEnds('\"', c.key);
      TrimMarked('\"', c.key);
  }

  lemma PairKeyOfChoice(lead: string, c: Choice)
    requires All(lead, IsSpace)
    requires ':' !in c.key && ':' !in c.value
    ensures PairKey(lead + RenderChoice(c)) == if ReadKey(c) == "" then None else Some(ReadKey(c))
  {
    var head, tail := lead + RenderKey(c), " " + c.value;
    assert lead + RenderChoice(c) == head + [':'] + tail by {
      assert ": " == [':'] + " ";
    }
    assert ':' !in lead && ':' !in RenderKey(c) && ':' !in tail;
    PairKeyOf(head, tail);
    TrimLead(lead, RenderKey(c), IsSpace);
    TrimKey(c);
  }

  lemma NoCommaInChoice(lead: string, c: Choice)
    requires ',' !in lead && Plain(c.key) && Plain(c.value)
    ensures ',' !in lead + RenderChoice(c)
  {
  }

  lemma PairKeysCons(head: string, parts: seq<string>)
    ensures PairKeys([head] + parts) ==
            match PairKey(head)
            case None => PairKeys(parts)
            case Some(key) => [key] + PairKeys(parts)
  {
    assert ([head] + parts)[1..] == parts;
  }

  lemma {:induction false} PairKeysOfBody(lead: string, choices: seq<Choice>)
    requires All(lead, IsSpace) && ',' !in lead
    requires choices != [] && AllPlain(choices)
    ensures PairKeys(Split(lead + RenderBody(choices), ',')) == ReadableKeys(choices)
    decreases choices
  {
    var c := choices[0];
    var head := lead + RenderChoice(c);
    assert Plain(c.key) && Plain(c.value);
    NoCommaInChoice(lead, c);
    PairKeyOfChoice(lead, c);
    if |choices| == 1 {
      SplitOne(head, ',');
      PairKeysCons(head, []);
      assert [head] + [] == [head];
      assert ReadableKeys(choices[1..]) == [];
    } else {
      var rest := " " + RenderBody(choices[1..]);
      RestOfBody(lead, choices);
      SplitCons(head, ',', rest);
      PairKeysOfBody(" ", choices[1..]);
      PairKeysCons(head, Split(rest, ','));
    }
  }

  lemma RestOfBody(lead: string, choices: seq<Choice>)
    requires |choices| > 1
    ensures lead + RenderBody(choices) ==
            (lead + RenderChoice(choices[0])) + [','] + (" " + RenderBody(choices[1..]))
  {
    Regroup(lead, RenderChoice(choices[0]), RenderBody(choices[1..]));
  }

  lemma Regroup(lead: string, first: string, rest: string)
    ensures lead + (first + ", " + rest) == (lead + first) + [','] + (" " + rest)
  {
    calc {
      lead + (first + ", " + rest);
      (lead + first) + (", " + rest);
    == { assert ", " == [','] + " "; }
      (lead + first) + (([','] + " ") + rest);
      (lead + first) + ([','] + (" " + rest));
      (lead + first) + [','] + (" " + rest);
    }
  }

  lemma ChoiceEnds(c: Choice)
    ensures RenderChoice(c) != []
    ensures !(c.quoting.Bare? && c.key != "" && IsBrace(c.key[0])) ==> !IsBrace(RenderChoice(c)[0])
    ensures c.value == "" || !IsBrace(c.value[|c.value| - 1]) ==> !IsBrace(RenderChoice(c)[|RenderChoice(c)| - 1])
  {
  }

  lemma {:induction false} BodyEnds(choices: seq<Choice>)
    requires choices != []
    ensures var b, last := RenderBody(choices), RenderChoice(choices[|choices| - 1]);
            b != [] && b[0] == RenderChoice(choices[0])[0] && b[|b| - 1] == last[|last| - 1]
  {
    ChoiceEnds(choices[0]);
    if |choices| > 1 {
      BodyEnds(choices[1..]);
    }
  }

  lemma CleanedBody(body: string)
    requires body != [] ==> !IsBrace(body[0]) && !IsBrace(body[|body| - 1])
    ensures Trim(Trim("{" + body + "}", IsQuote), IsBrace) == body
  {
    var text := "{" + body + "}";
    assert text == "" + text + "";
    TrimMiddle("", text, "", IsQuote);
    TrimMiddle("{", body, "}", IsBrace);
  }

  // Reading a rendered list of choices, whatever quotes the keys carry.
  lemma ParseRendered(choices: seq<Choice>)
    requires AllPlain(choices) && NoOuterBrace(choices)
    ensures Alternatives(Render(choices)) == Dedup(ReadableKeys(choices))
  {
    if choices == [] {
      CleanedBody("");
    } else {
      var body := RenderBody(choices);
      BodyEnds(choices);
      ChoiceEnds(choices[0]);
      ChoiceEnds(choices[|choices| - 1]);
      CleanedBody(body);
      assert body == "" + body;
      PairKeysOfBody("", choices);
    }
  }

  predicate Unquoted(k: string) {
    k != "" && !IsQuote(k[0]) && !IsQuote(k[|k| - 1])
  }

  // No quotes at the ends of the key, and no space either when it is bare.
  predicate Readable(c: Choice) {
    Unquoted(c.key) && (c.quoting.Bare? ==> !IsSpace(c.key[0]) && !IsSpace(c.key[|c.key| - 1]))
  }

  lemma {:induction false} ReadableKeysAreKeys(choices: seq<Choice>)
    requires forall i :: 0 <= i < |choices| ==> Readable(choices[i])
    ensures ReadableKeys(choices) == KeysOf(choices)
  {
    if choices != [] {
      var k := choices[0].key;
      assert Readable(choices[0]);
      assert k == "" + k + "";
      TrimMiddle("", k, "", IsQuote);
      if choices[0].quoting.Bare? {
        TrimMiddle("", k, "", IsSpace);
      }
      ReadableKeysAreKeys(choices[1..]);
    }
  }

  // The parser inverts the format: the keys come back once each, in order of first occurrence.
  lemma ParseInverse(choices: seq<Choice>)
    requires AllPlain(choices) && NoOuterBrace(choices)
    requires forall i :: 0 <= i < |choices| ==> Readable(choices[i])
    ensures Alternatives(Render(choices)) == Dedup(KeysOf(choices))
  {
    ParseRendered(choices);
    ReadableKeysAreKeys(choices);
  }

  // ----- Two texts as component definitions have them -----

  lemma TwoKeys(a: Choice, b: Choice)
    requires Plain(a.key) && Plain(a.value) && Plain(b.key) && Plain(b.value)
    requires Readable(a) && Readable(b) && a.key != b.key && NoOuterBrace([a, b])
    ensures Alternatives("{" + (RenderChoice(a) + ", " + RenderChoice(b)) + "}") == [a.key, b.key]
  {
    var choices := [a, b];
    TwoChoices(a, b);
    assert AllPlain(choices) && forall i :: 0 <= i < |choices| ==> Readable(choices[i]);
    ParseInverse(choices);
    DedupTwo(a.key, b.key);
    assert KeysOf(choices) == [a.key, b.key];
  }

  lemma TwoChoices(a: Choice, b: Choice)
    ensures Render([a, b]) == "{" + (RenderChoice(a) + ", " + RenderChoice(b)) + "}"
  {
    assert [a, b][1..] == [b];
    assert RenderBody([b]) == RenderChoice(b);
    assert RenderBody([a, b]) == RenderChoice(a) + ", " + RenderBody([b]);
  }

  lemma DedupTwo(x: string, y: string)
    requires x != y
    ensures Dedup([x, y]) == [x, y]
  {
    assert [x, y][..1] == [x] && [x][..0] == [];
    assert Dedup([x]) == [x];
  }

  lemma QuotedSample()
    ensures Alternatives("{'10_minutes': 600, 'default': 300}") == ["10_minutes", "default"]
  {
    QuotedTexts();
    QuotedText();
    DifferentKeys();
    TwoKeys(Choice("10_minutes", Single, "600"), Choice("default", Single, "300"));
  }

  lemma DifferentKeys()
    ensures "10_minutes" != "default"
    ensures Plain("10_minutes") && Plain("600") && Plain("default") && Plain("300")
  {
    assert |"10_minutes"| == 10 && |"default"| == 7;
  }

  lemma QuotedText()
    ensures "{" + ("'10_minutes': 600" + ", " + "'default': 300") + "}" ==
            "{'10_minutes': 600, 'default': 300}"
  {
  }

  lemma QuotedTexts()
    ensures RenderChoice(Choice("10_minutes", Single, "600")) == "'10_minutes': 600"
    ensures RenderChoice(Choice("default", Single, "300")) == "'default': 300"
  {
  }

  lemma BareSample()
    ensures Alternatives("{10: 10, 'default': 4}") == ["10", "default"]
  {
    BareTexts();
    BareText();
    TwoKeys(Choice("10", Bare, "10"), Choice("default", Single, "4"));
  }

  lemma BareText()
    ensures "{" + ("10: 10" + ", " + "'default': 4") + "}" == "{10: 10, 'default': 4}"
  {
  }

  lemma BareTexts()
    ensures RenderChoice(Choice("10", Bare, "10")) == "10: 10"
    ensures RenderChoice(Choice("default", Single, "4")) == "'default': 4"
  {
  }
}
