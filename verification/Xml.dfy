/**
  XML escaping (plugins/src/record_text_helpers.cpp). Unescaping is five `replace_all` passes over
  the whole text, `&amp;` last; each pass rescans what the earlier ones produced.
 */
module Xml {
  import opened Common

  // ---------- replace_all ----------

  /** Leftmost, non-overlapping replacement that never looks inside what it inserted. */
  function Replaced(text: string, from: string, to: string): string
    requires from != ""
    decreases |text|
  {
    if |text| < |from| then text
    else if from <= text then to + Replaced(text[|from|..], from, to)
    else [text[0]] + Replaced(text[1..], from, to)
  }

  predicate MatchesAt(text: string, from: string, i: nat) {
    i + |from| <= |text| && text[i..i + |from|] == from
  }

  lemma {:induction false} SkipMisses(text: string, from: string, to: string, start: nat, end: nat)
    requires from != "" && start <= end <= |text|
    requires forall i :: start <= i < end ==> !MatchesAt(text, from, i)
    ensures Replaced(text[start..], from, to) == text[start..end] + Replaced(text[end..], from, to)
    decreases end - start
  {
    hide Replaced, MatchesAt;
    if start < end {
      SkipMisses(text, from, to, start + 1, end);
      SkipOne(text, from, to, start);
      Associates([text[start]], text[start + 1..end], Replaced(text[end..], from, to));
      assert text[start..end] == [text[start]] + text[start + 1..end];
    }
  }

  lemma SkipOne(text: string, from: string, to: string, i: nat)
    requires from != "" && i < |text| && !MatchesAt(text, from, i)
    ensures Replaced(text[i..], from, to) == [text[i]] + Replaced(text[i + 1..], from, to)
  {
    var rest := text[i..];
    assert rest[1..] == text[i + 1..];
    if |rest| >= |from| {
      assert rest[..|from|] == text[i..i + |from|];
    } else {
      ShortText(text, from, to, i);
      ShortText(text, from, to, i + 1);
    }
  }

  lemma ShortText(text: string, from: string, to: string, i: nat)
    requires from != "" && i <= |text| && |text| - i < |from|
    ensures Replaced(text[i..], from, to) == text[i..]
  {
  }

  /** `std::string::find`: the first match at or after `pos`. */
  method Find(text: string, from: string, pos: nat) returns (r: Option<nat>)
    requires from != "" && pos <= |text|
    ensures r.Some? ==> pos <= r.value && MatchesAt(text, from, r.value)
    ensures forall i :: pos <= i < (if r.Some? then r.value else |text|) ==> !MatchesAt(text, from, i)
  {
    var i := pos;
    while i < |text|
      invariant pos <= i <= |text|
      invariant forall k :: pos <= k < i ==> !MatchesAt(text, from, k)
    {
      if MatchesAt(text, from, i) { return Some(i); }
      i := i + 1;
    }
    r := None;
  }

  method ReplaceAll(text0: string, from: string, to: string) returns (text: string)
    requires from != ""
    ensures text == Replaced(text0, from, to)
  {
    hide Replaced;
    text := text0;
    var pos := 0;
    assert text[0..] == text;
    while true
      invariant pos <= |text|
      invariant text[..pos] + Replaced(text[pos..], from, to) == Replaced(text0, from, to)
      decreases |text| - pos
    {
      var found := Find(text, from, pos);
      if found.None? {
        SkipMisses(text, from, to, pos, |text|);
        ShortText(text, from, to, |text|);
        assert text[..pos] + (text[pos..|text|] + text[|text|..]) == text;
        break;
      }
      var at := found.value;
      SkipMisses(text, from, to, pos, at);
      MatchStep(text, from, to, at);
      ghost var rest := Replaced(text[at + |from|..], from, to);
      ghost var tail := text[at + |from|..];
      assert text[..pos] + (text[pos..at] + (to + rest)) == text[..at] + to + rest;
      text := text[..at] + to + text[at + |from|..];
      pos := at + |to|;
      assert text[pos..] == tail && text[..pos] == text[..at] + to;
    }
  }

  lemma MatchStep(text: string, from: string, to: string, at: nat)
    requires from != "" && MatchesAt(text, from, at)
    ensures Replaced(text[at..], from, to) == to + Replaced(text[at + |from|..], from, to)
  {
    assert text[at..][..|from|] == from;
    assert text[at..][|from|..] == text[at + |from|..];
  }

  // ---------- escaping ----------

  /** The five special characters, in the order in which unescaping treats them. */
  function Special(i: int): char
    requires 0 <= i < 5
  {
    if i == 0 then '<' else if i == 1 then '>' else if i == 2 then '"' else if i == 3 then '\'' else '&'
  }

  function Entity(i: int): string
    requires 0 <= i < 5
  {
    if i == 0 then "&lt;" else if i == 1 then "&gt;" else if i == 2 then "&quot;"
    else if i == 3 then "&apos;" else "&amp;"
  }

  function Rank(c: char): (r: Option<int>)
    ensures r.Some? ==> 0 <= r.value < 5 && Special(r.value) == c
  {
    if c == '<' then Some(0) else if c == '>' then Some(1) else if c == '"' then Some(2)
    else if c == '\'' then Some(3) else if c == '&' then Some(4) else None
  }

  /** What stands for a character once the first `pass` passes of unescaping are done. */
  function Image(c: char, pass: int): string {
    if Rank(c).Some? && Rank(c).value >= pass then Entity(Rank(c).value) else [c]
  }

  function Partial(text: string, pass: int): string {
    if text == "" then "" else Image(text[0], pass) + Partial(text[1..], pass)
  }

  function Escaped(text: string): string { Partial(text, 0) }

  function UnescapedFrom(text: string, pass: int): string
    requires 0 <= pass <= 5
    decreases 5 - pass
  {
    if pass == 5 then text else UnescapedFrom(Replaced(text, Entity(pass), [Special(pass)]), pass + 1)
  }

  method Escape(input: string) returns (out: string)
    ensures out == Escaped(input)
  {
    hide Image;
    out := "";
    assert input[0..] == input;
    for i := 0 to |input|
      invariant out + Partial(input[i..], 0) == Escaped(input)
    {
      assert input[i..][1..] == input[i + 1..];
      ghost var rest := Partial(input[i + 1..], 0);
      assert out + (Image(input[i], 0) + rest) == out + Image(input[i], 0) + rest;
      var image := EntityOf(input[i]);
      out := out + image;
    }
    assert input[|input|..] == "" && out + "" == out;
  }

  /** The switch of `xml_escape`. */
  method EntityOf(c: char) returns (image: string)
    ensures image == Image(c, 0)
  {
    match c {
      case '&' => image := "&amp;";
      case '<' => image := "&lt;";
      case '>' => image := "&gt;";
      case '"' => image := "&quot;";
      case '\'' => image := "&apos;";
      case _ => image := [c];
    }
  }

  method Unescape(input: string) returns (text: string)
    ensures text == UnescapedFrom(input, 0)
  {
    text := ReplaceAll(input, "&lt;", "<");
    text := ReplaceAll(text, "&gt;", ">");
    text := ReplaceAll(text, "&quot;", "\"");
    text := ReplaceAll(text, "&apos;", "'");
    text := ReplaceAll(text, "&amp;", "&");
    FivePasses(input);
  }

  lemma FivePasses(input: string)
    ensures UnescapedFrom(input, 0) ==
            Replaced(Replaced(Replaced(Replaced(Replaced(input, "&lt;", "<"), "&gt;", ">"),
                                       "&quot;", "\""), "&apos;", "'"), "&amp;", "&")
  {
    hide Replaced;
    var t1 := Replaced(input, "&lt;", "<");
    var t2 := Replaced(t1, "&gt;", ">");
    var t3 := Replaced(t2, "&quot;", "\"");
    var t4 := Replaced(t3, "&apos;", "'");
    var t5 := Replaced(t4, "&amp;", "&");
    assert UnescapedFrom(t5, 5) == t5;
    assert UnescapedFrom(t4, 4) == UnescapedFrom(t5, 5);
    assert UnescapedFrom(t3, 3) == UnescapedFrom(t4, 4);
    assert UnescapedFrom(t2, 2) == UnescapedFrom(t3, 3);
    assert UnescapedFrom(t1, 1) == UnescapedFrom(t2, 2);
  }

  // ---------- the passes undo the escaping ----------

  lemma StepOver(c: char, rest: string, from: string, to: string)
    requires from != "" && !(from <= [c] + rest)
    ensures Replaced([c] + rest, from, to) == [c] + Replaced(rest, from, to)
  {
    assert ([c] + rest)[1..] == rest;
  }

  /** A pass copies text in which no entity can start. */
  lemma {:induction false} CopyPlain(plain: string, rest: string, from: string, to: string)
    requires from != "" && from[0] == '&' && '&' !in plain
    ensures Replaced(plain + rest, from, to) == plain + Replaced(rest, from, to)
  {
    hide Replaced;
    if plain == "" {
      assert plain + rest == rest;
    } else {
      var tail := plain[1..];
      CopyPlain(tail, rest, from, to);
      assert plain == [plain[0]] + tail;
      assert plain + rest == [plain[0]] + (tail + rest);
      StepOver(plain[0], tail + rest, from, to);
      assert [plain[0]] + (tail + Replaced(rest, from, to)) == plain + Replaced(rest, from, to);
    }
  }

  /** A pass copies the other entities: any two of the five differ in their first three characters. */
  lemma CopyEntity(i: int, pass: int, rest: string)
    requires 0 <= pass < i < 5
    ensures Replaced(Entity(i) + rest, Entity(pass), [Special(pass)])
            == Entity(i) + Replaced(rest, Entity(pass), [Special(pass)])
  {
    hide Replaced;
    var entity, from, to := Entity(i), Entity(pass), [Special(pass)];
    var tail := entity[1..];
    EntitiesDiffer(i, pass);
    CopyPlain(tail, rest, from, to);
    assert entity == ['&'] + tail;
    assert entity + rest == ['&'] + (tail + rest);
    NotAPrefix(entity, rest, from);
    StepOver('&', tail + rest, from, to);
    assert ['&'] + (tail + Replaced(rest, from, to)) == entity + Replaced(rest, from, to);
  }

  lemma EntitiesDiffer(i: int, pass: int)
    requires 0 <= pass < i < 5
    ensures Entity(i)[0] == Entity(pass)[0] == '&' && '&' !in Entity(i)[1..]
    ensures |Entity(i)| >= 3 && |Entity(pass)| >= 3 && Entity(i)[..3] != Entity(pass)[..3]
  {
    if i == 4 && pass == 3 {
      assert Entity(i)[..3][2] != Entity(pass)[..3][2];
    } else {
      assert Entity(i)[..3][1] != Entity(pass)[..3][1];
    }
  }

  lemma NotAPrefix(entity: string, rest: string, from: string)
    requires |entity| >= 3 && |from| >= 3 && entity[..3] != from[..3]
    ensures !(from <= entity + rest)
  {
    assert (entity + rest)[..3] == entity[..3];
  }

  lemma {:induction false} OnePass(text: string, pass: int)
    requires 0 <= pass < 5
    ensures Replaced(Partial(text, pass), Entity(pass), [Special(pass)]) == Partial(text, pass + 1)
  {
    if text != "" {
      hide Replaced;
      var c, rest := text[0], Partial(text[1..], pass);
      OnePass(text[1..], pass);
      if Rank(c) == Some(pass) {
        Consume(pass, rest);
      } else if Rank(c).Some? && Rank(c).value > pass {
        CopyEntity(Rank(c).value, pass, rest);
      } else {
        CopyPlain([c], rest, Entity(pass), [Special(pass)]);
      }
    }
  }

  lemma Consume(pass: int, rest: string)
    requires 0 <= pass < 5
    ensures Replaced(Entity(pass) + rest, Entity(pass), [Special(pass)])
            == [Special(pass)] + Replaced(rest, Entity(pass), [Special(pass)])
  {
    var text := Entity(pass) + rest;
    assert text[|Entity(pass)|..] == rest;
  }

  lemma {:induction false} AllPasses(text: string, pass: int)
    requires 0 <= pass <= 5
    ensures UnescapedFrom(Partial(text, pass), pass) == text
    decreases 5 - pass
  {
    if pass == 5 {
      NothingLeft(text);
    } else {
      hide Replaced, Partial;
      OnePass(text, pass);
      AllPasses(text, pass + 1);
    }
  }

  lemma {:induction false} NothingLeft(text: string)
    ensures Partial(text, 5) == text
  {
    if text != "" {
      NothingLeft(text[1..]);
    }
  }

  /** Unescaping an escaped text gives the text back, although passes rescan each other's output. */
  lemma RoundTrip(text: string)
    ensures UnescapedFrom(Escaped(text), 0) == text
  {
    AllPasses(text, 0);
  }

  /** The text with each special character replaced by its entity, character by character. */
  function ByTable(text: string): string {
    if text == "" then ""
    else
      var c := text[0];
      (if c == '&' then "&amp;" else if c == '<' then "&lt;" else if c == '>' then "&gt;"
       else if c == '"' then "&quot;" else if c == '\'' then "&apos;" else [c]) + ByTable(text[1..])
  }

  lemma {:induction false} EscapedByTable(text: string)
    ensures Escaped(text) == ByTable(text)
  {
    if text != "" { EscapedByTable(text[1..]); }
  }
}
