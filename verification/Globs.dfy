/** The globs of the in-process memory. packages/core/memory/in-memory.ts */
module Globs {

  /** The characters that the dot of a regular expression does not match. */
  predicate IsTerminator(c: char) {
    c == '\n' || c == '\r' || c == '\U{2028}' || c == '\U{2029}'
  }

  predicate OneLine(s: string) {
    forall i :: 0 <= i < |s| ==> !IsTerminator(s[i])
  }

  /** A text is in one line when it holds no line feed, carriage return, or line or paragraph separator. */
  lemma InOneLineExactly(s: string)
    ensures OneLine(s) <==> forall i :: 0 <= i < |s| ==> s[i] as int !in {10, 13, 0x2028, 0x2029}
  {
    forall i | 0 <= i < |s| ensures IsTerminator(s[i]) <==> s[i] as int in {10, 13, 0x2028, 0x2029} {}
  }

  /** A star stands for any text and a question mark for any character, line terminators aside. */
  predicate Matches(pattern: string, text: string)
    decreases |pattern|
  {
    if pattern == "" then text == ""
    else if pattern[0] == '*' then
      exists k :: 0 <= k <= |text| && OneLine(text[..k]) && Matches(pattern[1..], text[k..])
    else text != "" && (if pattern[0] == '?' then !IsTerminator(text[0]) else pattern[0] == text[0]) &&
         Matches(pattern[1..], text[1..])
  }

  lemma {:induction false} MatchesInOneLine(pattern: string, text: string)
    requires OneLine(pattern) && Matches(pattern, text)
    ensures OneLine(text)
    decreases |pattern|
  {
    if pattern == "" {
    } else if pattern[0] == '*' {
      var k :| 0 <= k <= |text| && OneLine(text[..k]) && Matches(pattern[1..], text[k..]);
      MatchesInOneLine(pattern[1..], text[k..]);
      assert forall i :: k <= i < |text| ==> text[i] == text[k..][i - k];
      assert forall i :: 0 <= i < k ==> text[i] == text[..k][i];
    } else {
      MatchesInOneLine(pattern[1..], text[1..]);
      assert forall i :: 1 <= i < |text| ==> text[i] == text[1..][i - 1];
    }
  }

  /** A text in one line matches itself, wildcards in it included. */
  lemma {:induction false} MatchesItself(same: string, pattern: string, text: string)
    requires OneLine(same) && Matches(pattern, text)
    ensures Matches(same + pattern, same + text)
  {
    if same == "" {
      assert same + pattern == pattern && same + text == text;
    } else {
      MatchesItself(same[1..], pattern, text);
      assert (same + pattern)[1..] == same[1..] + pattern && (same + text)[1..] == same[1..] + text;
      assert OneLine((same + text)[..1]);
    }
  }

  lemma MatchesStar(skipped: string, pattern: string, text: string)
    requires OneLine(skipped) && Matches(pattern, text)
    ensures Matches("*" + pattern, skipped + text)
  {
    assert ("*" + pattern)[1..] == pattern;
    assert (skipped + text)[..|skipped|] == skipped && (skipped + text)[|skipped|..] == text;
  }

  /** A pattern ending in a plain character matches texts that end in it only. */
  lemma {:induction false} MatchesLast(pattern: string, last: char, text: string)
    requires last != '*' && last != '?' && Matches(pattern + [last], text)
    ensures text != "" && text[|text| - 1] == last
    decreases |pattern|
  {
    var whole := pattern + [last];
    if pattern == "" {
      assert whole[1..] == "" && whole[0] == last;
    } else {
      assert whole[1..] == pattern[1..] + [last];
      if whole[0] == '*' {
        var k :| 0 <= k <= |text| && OneLine(text[..k]) && Matches(whole[1..], text[k..]);
        MatchesLast(pattern[1..], last, text[k..]);
      } else {
        MatchesLast(pattern[1..], last, text[1..]);
      }
    }
  }

  /** Without wildcards a pattern stands for itself only. */
  predicate Plain(text: string) {
    '*' !in text && '?' !in text
  }

  lemma {:induction false} PlainPrefix(same: string, pattern: string, text: string)
    requires Plain(same)
    ensures Matches(same + pattern, same + text) <==> Matches(pattern, text)
  {
    if same == "" {
      assert same + pattern == pattern && same + text == text;
    } else {
      PlainPrefix(same[1..], pattern, text);
      assert (same + pattern)[1..] == same[1..] + pattern && (same + text)[1..] == same[1..] + text;
    }
  }

  /** What a plain beginning of a pattern matches. */
  lemma {:induction false} PlainFirst(same: string, pattern: string, text: string)
    requires Plain(same) && Matches(same + pattern, text)
    ensures same <= text && Matches(pattern, text[|same|..])
  {
    if same == "" {
      assert same + pattern == pattern && text[0..] == text;
    } else {
      assert (same + pattern)[1..] == same[1..] + pattern;
      PlainFirst(same[1..], pattern, text[1..]);
      assert text[1..][|same| - 1..] == text[|same|..];
      assert same == [same[0]] + same[1..] && text == [text[0]] + text[1..];
    }
  }

  lemma StarFirst(pattern: string, text: string) returns (k: nat)
    requires Matches("*" + pattern, text)
    ensures k <= |text| && OneLine(text[..k]) && Matches(pattern, text[k..])
  {
    assert ("*" + pattern)[1..] == pattern;
    k :| 0 <= k <= |text| && OneLine(text[..k]) && Matches(pattern, text[k..]);
  }

  lemma OneLineParts(a: string, b: string)
    ensures OneLine(a + b) <==> OneLine(a) && OneLine(b)
  {
    assert forall i :: 0 <= i < |a| ==> (a + b)[i] == a[i];
    assert forall i :: 0 <= i < |b| ==> (a + b)[|a| + i] == b[i];
  }

  lemma NothingMatchesNothing()
    ensures Matches("", "")
  {}
}
