/** Text handling around the narration: the refusal test applied to the
    vision model's answer, and the cleaning of that answer before speech
    synthesis. */
module Narration {
  import opened Wrappers
  import opened Strings

  /** The refusal marker. */
  const Marker: string := "sorry"

  /** What is put in front of the cleaned text before it is synthesised. */
  const SpeechLead: string := "-- --"

  /** `contains_sorry(text)`: the lowered text contains the marker, that
      is, "sorry" occurs somewhere in the lowered text. */
  predicate ContainsSorry(text: string): (r: bool)
    ensures r <==> exists i: nat :: OccursAt(Lower(text), Marker, i)
  {
    ContainsIff(Lower(text), Marker);
    Contains(Lower(text), Marker)
  }

  /** The test ignores case: lowering the text first changes nothing. */
  lemma ContainsSorryIgnoresCase(text: string)
    ensures ContainsSorry(Lower(text)) == ContainsSorry(text)
  {
    LowerIdempotent(text);
  }

  /** The marker in any mix of cases, anywhere, even inside a longer word,
      makes the test hold. */
  lemma MarkerAnywhere(before: string, word: string, after: string)
    requires Lower(word) == Marker
    ensures ContainsSorry(before + word + after)
  {
    LowerAppend(before + word, after);
    LowerAppend(before, word);
    assert Contains(Lower(word), Marker) by {
      assert Lower(word)[..|Marker|] == Marker;
    }
    ContainsWithin(Lower(before), Lower(word), Lower(after), Marker);
  }

  /** A five-letter word that lowers letter by letter to the marker. */
  lemma MarkerWord(word: string)
    requires |word| == |Marker| && forall i :: 0 <= i < |word| ==> LowerChar(word[i]) == Marker[i]
    ensures ContainsSorry(word)
  {
    assert Lower(word) == Marker;
    MarkerAnywhere("", word, "");
    assert "" + word + "" == word;
  }

  /** "Sorry" and "SORRY" both count as refusals. */
  lemma CapitalisedSorry()
    ensures ContainsSorry("Sorry") && ContainsSorry("SORRY")
  {
    assert LowerChar('S') == 's' && LowerChar('O') == 'o' && LowerChar('R') == 'r' && LowerChar('Y') == 'y';
    MarkerWord("Sorry");
    MarkerWord("SORRY");
  }

  /** Text with no "s" in any case never trips the test. */
  lemma NoMarkerWithoutS(text: string)
    requires forall i :: 0 <= i < |text| ==> text[i] != 's' && text[i] != 'S'
    ensures !ContainsSorry(text)
  {
    if exists i: nat :: OccursAt(Lower(text), Marker, i) {
      var i: nat :| OccursAt(Lower(text), Marker, i);
      assert Lower(text)[i] == Marker[0];
    }
  }

  // ---------------------------------------------------------------------
  // re.sub(r'\[.*?\]', '', text)

  /** Where the shortest `[`...`]` span that opened just before `s` closes:
      the index of the first `]` in `s`, unless a line break comes first
      (the regular expression's `.` does not match a line break). */
  function Close(s: string): (r: Option<nat>)
    ensures r.Some? ==> r.value < |s| && s[r.value] == ']' &&
                        forall k :: 0 <= k < r.value ==> s[k] != ']' && s[k] != '\n'
    ensures r.None? ==> forall k :: 0 <= k < |s| && s[k] == ']' ==> '\n' in s[..k]
    decreases |s|
  {
    if |s| == 0 then None
    else if s[0] == ']' then Some(0)
    else if s[0] == '\n' then None
    else
      match Close(s[1..])
      case None => None
      case Some(j) => Some(j + 1)
  }

  /** The substitution: scanning left to right, each `[` that has a closing
      `]` on the same line is removed together with that `]` and everything
      between them; scanning resumes after the `]`. */
  function StripBrackets(s: string): (r: string)
    ensures |r| <= |s|
    ensures '[' !in s ==> r == s
    decreases |s|
  {
    if |s| == 0 then ""
    else if s[0] == '[' && Close(s[1..]).Some? then StripBrackets(s[Close(s[1..]).value + 2..])
    else [s[0]] + StripBrackets(s[1..])
  }

  /** `new_text = "-- --" + modified_text` in `generate_audio`. */
  function SpeechText(analysis: string): (r: string)
    ensures |SpeechLead| <= |r| <= |SpeechLead| + |analysis|
    ensures r[..|SpeechLead|] == SpeechLead
    ensures '[' !in analysis ==> r == SpeechLead + analysis
  {
    SpeechLead + StripBrackets(analysis)
  }

  /** Text in which no `[` has a `]` later on its own line. */
  predicate Clean(s: string)
    decreases |s|
  {
    |s| == 0 || ((s[0] == '[' ==> Close(s[1..]).None?) && Clean(s[1..]))
  }

  /** `Clean`, read position by position. */
  lemma {:induction false} CleanIff(s: string)
    ensures Clean(s) <==> forall i :: 0 <= i < |s| && s[i] == '[' ==> Close(s[i + 1..]).None?
    decreases |s|
  {
    if |s| > 0 {
      CleanIff(s[1..]);
      assert forall i :: 1 <= i < |s| ==> s[1..][i - 1] == s[i] && s[1..][i - 1 + 1..] == s[i + 1..];
    }
  }

  /** The leftmost span is the shortest one: an opening `[`, text with no
      `]` and no line break, and the first `]` are removed as a whole. */
  lemma StripRemovesSpan(inner: string, rest: string)
    requires ']' !in inner && '\n' !in inner
    ensures StripBrackets("[" + inner + "]" + rest) == StripBrackets(rest)
  {
    var s := "[" + inner + "]" + rest;
    var t := s[1..];
    assert t == inner + "]" + rest;
    assert t[|inner|] == ']';
    assert forall k :: 0 <= k < |inner| ==> t[k] == inner[k];
    assert Close(t) == Some(|inner|);
    assert s[|inner| + 2..] == rest;
  }

  /** A `[` whose line ends, or whose text ends, before any `]` is kept. */
  lemma StripKeepsUnclosed(inner: string, rest: string)
    requires ']' !in inner && '\n' !in inner
    requires rest == [] || rest[0] == '\n'
    ensures StripBrackets("[" + inner + rest) == "[" + StripBrackets(inner + rest)
  {
    var s := "[" + inner + rest;
    var t := s[1..];
    assert t == inner + rest;
    assert forall k :: 0 <= k < |inner| ==> t[k] == inner[k];
    assert |rest| > 0 ==> t[|inner|] == '\n';
    assert Close(t).None?;
  }

  /** If no `]` comes before the line ends, stripping does not create one. */
  lemma {:induction false} StripKeepsUnclosable(t: string)
    requires Close(t).None?
    ensures Close(StripBrackets(t)).None?
    decreases |t|
  {
    if |t| > 0 && t[0] != '\n' {
      assert t[0] != ']';
      assert Close(t[1..]).None?;
      StripKeepsUnclosable(t[1..]);
      if t[0] == '[' {
        assert StripBrackets(t) == [t[0]] + StripBrackets(t[1..]);
      }
      assert StripBrackets(t)[1..] == StripBrackets(t[1..]);
    }
  }

  /** The result of the substitution contains nothing left to substitute. */
  lemma {:induction false} StripIsClean(s: string)
    ensures Clean(StripBrackets(s))
    decreases |s|
  {
    if |s| > 0 {
      if s[0] == '[' && Close(s[1..]).Some? {
        StripIsClean(s[Close(s[1..]).value + 2..]);
      } else {
        StripIsClean(s[1..]);
        var r := StripBrackets(s);
        assert r[1..] == StripBrackets(s[1..]);
        if s[0] == '[' {
          StripKeepsUnclosable(s[1..]);
        }
      }
    }
  }

  /** Clean text is left alone. */
  lemma {:induction false} CleanIsFixed(s: string)
    requires Clean(s)
    ensures StripBrackets(s) == s
    decreases |s|
  {
    if |s| > 0 {
      CleanIsFixed(s[1..]);
    }
  }

  /** Stripping twice is the same as stripping once. */
  lemma StripIdempotent(s: string)
    ensures StripBrackets(StripBrackets(s)) == StripBrackets(s)
  {
    StripIsClean(s);
    CleanIsFixed(StripBrackets(s));
  }

  /** A removed span holds no line break. */
  lemma SpanHasNoLineBreak(s: string, j: nat)
    requires |s| > 0 && s[0] == '[' && Close(s[1..]) == Some(j)
    ensures j + 2 <= |s| && '\n' !in s[..j + 2]
  {
    assert forall k :: 1 <= k < j + 2 ==> s[k] == s[1..][k - 1];
  }

  /** A removed span takes no line break with it. */
  lemma SpanStepLineBreaks(s: string, j: nat)
    requires |s| > 0 && s[0] == '[' && Close(s[1..]) == Some(j)
    requires multiset(StripBrackets(s[j + 2..]))['\n'] == multiset(s[j + 2..])['\n']
    ensures multiset(StripBrackets(s))['\n'] == multiset(s)['\n']
  {
    SpanHasNoLineBreak(s, j);
    assert s == s[..j + 2] + s[j + 2..];
    assert multiset(s) == multiset(s[..j + 2]) + multiset(s[j + 2..]);
  }

  /** A kept character keeps its line break, if it is one. */
  lemma KeptStepLineBreaks(s: string)
    requires |s| > 0 && !(s[0] == '[' && Close(s[1..]).Some?)
    requires multiset(StripBrackets(s[1..]))['\n'] == multiset(s[1..])['\n']
    ensures multiset(StripBrackets(s))['\n'] == multiset(s)['\n']
  {
    assert s == [s[0]] + s[1..];
    assert multiset(s) == multiset([s[0]]) + multiset(s[1..]);
    assert multiset(StripBrackets(s)) == multiset([s[0]]) + multiset(StripBrackets(s[1..]));
  }

  /** Every line break survives: a removed span never contains one. */
  lemma {:induction false} StripKeepsLineBreaks(s: string)
    ensures multiset(StripBrackets(s))['\n'] == multiset(s)['\n']
    decreases |s|
  {
    if |s| > 0 {
      if s[0] == '[' && Close(s[1..]).Some? {
        var j := Close(s[1..]).value;
        StripKeepsLineBreaks(s[j + 2..]);
        SpanStepLineBreaks(s, j);
      } else {
        StripKeepsLineBreaks(s[1..]);
        KeptStepLineBreaks(s);
      }
    }
  }

  /** The synthesised text is the lead followed by the cleaned analysis, and
      a second cleaning of it would change nothing. */
  lemma SpeechTextShape(analysis: string)
    ensures SpeechText(analysis)[..|SpeechLead|] == SpeechLead
    ensures SpeechText(analysis)[|SpeechLead|..] == StripBrackets(analysis)
    ensures '[' !in analysis ==> SpeechText(analysis) == SpeechLead + analysis
    ensures StripBrackets(SpeechText(analysis)) == SpeechText(analysis)
  {
    StripIsClean(analysis);
    var t := SpeechText(analysis);
    assert Clean(t) by {
      CleanIff(StripBrackets(analysis));
      CleanIff(t);
      forall i | 0 <= i < |t| && t[i] == '[' ensures Close(t[i + 1..]).None? {
        assert i >= |SpeechLead|;
        assert t[i + 1..] == StripBrackets(analysis)[i - |SpeechLead| + 1..];
      }
    }
    CleanIsFixed(t);
  }
}
