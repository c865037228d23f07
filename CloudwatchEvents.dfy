/** The delimiter-index variant (CloudwatchEvents.java): a log line is cut at
    '~' and " ~ " by index arithmetic, the exception class is cut out of the
    fourth field around the "Exception:" marker, the pairs are counted per
    page of events, and the counts are printed as a three-column table. */
module CloudwatchEvents {
  import opened JavaStrings
  import opened Counts

  /** The marker the exception class name ends in. */
  const Keyword: string := "Exception:"

  /** The field separator, and the character that opens the component field. */
  const Separator: string := " ~ "

  predicate HasDotUpTo(s: string, j: int)
  {
    exists d :: 0 <= d <= j && d < |s| && s[d] == '.'
  }

  /** `d` is the last '.' at or before the marker at `j`. */
  predicate LastDotBefore(s: string, d: int, j: int)
  {
    && 0 <= d <= j < |s| && s[d] == '.'
    && forall k :: d < k <= j ==> s[k] != '.'
  }

  /** `r` is the simple class name written just before the colon of the
      marker at `j`, whose last preceding dot is at `d`: the text after the
      dot up to and including "Exception", without its leading spaces. It
      contains no dot and ends with "Exception". */
  ghost predicate SimpleNameAt(s: string, d: int, j: int, r: string)
  {
    && Occurs(s, Keyword, j) && LastDotBefore(s, d, j)
    && |Keyword| - 1 <= |r| <= j + |Keyword| - 2 - d
    && s[j + |Keyword| - 1 - |r|..j + |Keyword| - 1] == r
    && NoDot(r) && EndsWith(r, "Exception") && !IsJavaSpace(r[0])
    && forall k :: d < k < j + |Keyword| - 1 - |r| ==> IsJavaSpace(s[k])
  }

  /** The characters of the marker before its colon spell "Exception". */
  lemma MarkerLetters(s: string, j: int)
    requires Occurs(s, Keyword, j)
    ensures s[j..j + |Keyword| - 1] == "Exception"
    ensures forall k :: j <= k < j + |Keyword| - 1 ==> s[k] != '.' && !IsJavaSpace(s[k])
  {
    assert s[j..j + |Keyword| - 1] == s[j..j + |Keyword|][..9];
  }

  lemma MarkerWord(s: string, j: int, d: int)
    requires Occurs(s, Keyword, j) && 0 <= d < j
    ensures EndsWith(s[d + 1..j + |Keyword| - 1], "Exception")
  {
    MarkerLetters(s, j);
    var t := s[d + 1..j + |Keyword| - 1];
    assert t[|t| - 9..] == s[j..j + |Keyword| - 1];
  }

  /** The text between the last dot `d` before a marker at `j` and the
      marker's colon, trimmed, is the simple name at `j`. */
  lemma NameAfterDot(s: string, d: int, j: int)
    requires Occurs(s, Keyword, j) && LastDotBefore(s, d, j)
    ensures SimpleNameAt(s, d, j, Trim(s[d + 1..j + |Keyword| - 1]))
  {
    var start := NameStart(s, d, j);
    NameHasNoDot(s, d, j, start - d - 1);
  }

  /** Where the trimmed name after the dot begins. */
  lemma NameStart(s: string, d: int, j: int) returns (start: int)
    requires Occurs(s, Keyword, j) && LastDotBefore(s, d, j)
    ensures d < start <= j
    ensures Trim(s[d + 1..j + |Keyword| - 1]) == s[start..j + |Keyword| - 1]
    ensures EndsWith(s[start..j + |Keyword| - 1], "Exception") && !IsJavaSpace(s[start])
    ensures forall k :: d < k < start ==> IsJavaSpace(s[k])
  {
    MarkerLetters(s, j);
    assert d < j;
    MarkerWord(s, j, d);
    WordHasNoSpace();
    start := TrimSliceKeepsSuffix(s, d + 1, j + |Keyword| - 1, "Exception");
  }

  lemma WordHasNoSpace()
    ensures forall k :: 0 <= k < |"Exception"| ==> !IsJavaSpace("Exception"[k])
  {
    var w := "Exception";
    forall k | 0 <= k < |w| ensures !IsJavaSpace(w[k]) {
      assert w[k] in w;
    }
  }

  lemma NameHasNoDot(s: string, d: int, j: int, l: nat)
    requires Occurs(s, Keyword, j) && LastDotBefore(s, d, j)
    requires d + 1 + l <= j + |Keyword| - 1
    ensures NoDot(s[d + 1 + l..j + |Keyword| - 1])
  {
    MarkerLetters(s, j);
    var r := s[d + 1 + l..j + |Keyword| - 1];
    forall k | 0 <= k < |r| ensures r[k] != '.' {
      assert r[k] == s[d + 1 + l + k];
    }
  }

  /** extractSubExceptionData(str, "Exception:"): the simple name before the
      second, non-overlapping marker, or "" when there is no such marker or no
      '.' before it. (The source takes the marker as a parameter; its only
      caller passes "Exception:".) */
  function ExtractSubExceptionData(str: string): (r: string)
    ensures var i := IndexOf(str, Keyword, 0);
            var j := if i == -1 then -1 else IndexOf(str, Keyword, i + |Keyword|);
            && (r != [] <==> j != -1 && HasDotUpTo(str, j))
            && (r != [] ==> forall d :: LastDotBefore(str, d, j) ==> SimpleNameAt(str, d, j, r))
            && (r == [] || (NoDot(r) && EndsWith(r, "Exception")))
  {
    var firstIndex := IndexOf(str, Keyword, 0);
    if firstIndex == -1 then ""
    else
      var secondIndex := IndexOf(str, Keyword, firstIndex + |Keyword|);
      if secondIndex == -1 then ""
      else
        var lastDotIndex := LastIndexOf(str, ".", secondIndex);
        OccursChar(str, '.', lastDotIndex);
        if lastDotIndex == -1 then
          assert !HasDotUpTo(str, secondIndex) by {
            forall d | 0 <= d <= secondIndex && d < |str| ensures str[d] != '.' {
              OccursChar(str, '.', d);
            }
          }
          ""
        else
          assert forall k :: lastDotIndex < k <= secondIndex ==> str[k] != '.' by {
            forall k | lastDotIndex < k <= secondIndex ensures str[k] != '.' {
              OccursChar(str, '.', k);
            }
          }
          NameAfterDot(str, lastDotIndex, secondIndex);
          Trim(str[lastDotIndex + 1..secondIndex + |Keyword| - 1])
  }

  /** extractExceptionData: the simple name before the first marker, unless
      ".Exception" occurs anywhere in the text, in which case the name before
      the second marker is used instead. */
  function ExtractExceptionData(message: string): (r: string)
    ensures var i := IndexOf(message, Keyword, 0);
            && (i == -1 ==> r == [])
            && (i != -1 && !HasDotUpTo(message, i) ==> r == [])
            && (i != -1 && HasDotUpTo(message, i) && !Contains(message, ".Exception") ==>
                  forall d :: LastDotBefore(message, d, i) ==> SimpleNameAt(message, d, i, r))
            && (i != -1 && HasDotUpTo(message, i) && Contains(message, ".Exception") ==> r == ExtractSubExceptionData(message))
            && (r == [] || (NoDot(r) && EndsWith(r, "Exception")))
  {
    var exceptionIndex := IndexOf(message, Keyword, 0);
    if exceptionIndex == -1 then ""
    else
      var lastDotIndex := LastIndexOf(message, ".", exceptionIndex);
      OccursChar(message, '.', lastDotIndex);
      if lastDotIndex == -1 then
        assert !HasDotUpTo(message, exceptionIndex) by {
          forall d | 0 <= d <= exceptionIndex && d < |message| ensures message[d] != '.' {
            OccursChar(message, '.', d);
          }
        }
        ""
      else
        assert forall k :: lastDotIndex < k <= exceptionIndex ==> message[k] != '.' by {
          forall k | lastDotIndex < k <= exceptionIndex ensures message[k] != '.' {
            OccursChar(message, '.', k);
          }
        }
        NameAfterDot(message, lastDotIndex, exceptionIndex);
        var exceptionData := Trim(message[lastDotIndex + 1..exceptionIndex + |Keyword| - 1]);
        var exceptionData := if Contains(message, ".Exception") then "" else exceptionData;
        if exceptionData == [] then ExtractSubExceptionData(message) else exceptionData
  }

  /** extractExceptionClass: the trimmed field between the third separator's
      '~' and the fourth separator (or the end of the line), then
      extractExceptionData on it. */
  function ExtractExceptionClass(message: string, thirdTilde: int, fourthTilde: int): (r: string)
    requires 0 <= thirdTilde + 1 <= fourthTilde <= |message|
    ensures r == [] || (NoDot(r) && EndsWith(r, "Exception"))
  {
    var exceptionMessage := Trim(message[thirdTilde + 1..fourthTilde]);
    ExtractExceptionData(exceptionMessage)
  }

  /** The four positions getStats computes for a message: the first '~',
      and the next three separators after it; `fourth` is already replaced by
      the length of the line when there is no fourth separator. */
  datatype Tildes = Tildes(first: int, second: int, third: int, fourth: int)

  /** No occurrence of `pat` starts in [lo, hi). */
  predicate NoneBetween(s: string, pat: string, lo: int, hi: int)
  {
    forall i :: lo <= i < hi ==> !Occurs(s, pat, i)
  }

  /** Locating the fields: each position is the first occurrence after the
      previous one, or -1. */
  function Locate(message: string): (t: Tildes)
    ensures t.first == -1 <==> '~' !in message
    ensures t.first != -1 ==> (0 <= t.first < |message| && message[t.first] == '~' && '~' !in message[..t.first])
    ensures t.second != -1 ==> t.first != -1 && t.first < t.second && Occurs(message, Separator, t.second)
    ensures t.first != -1 ==> NoneBetween(message, Separator, t.first + 1, if t.second == -1 then |message| else t.second)
    ensures t.third != -1 ==> t.second != -1 && t.second < t.third && Occurs(message, Separator, t.third)
    ensures t.second != -1 ==> NoneBetween(message, Separator, t.second + 1, if t.third == -1 then |message| else t.third)
    ensures t.third != -1 ==> t.third < t.fourth <= |message| && NoneBetween(message, Separator, t.third + 1, t.fourth)
    ensures t.third != -1 && t.fourth < |message| ==> Occurs(message, Separator, t.fourth)
  {
    var firstTilde := IndexOf(message, "~", 0);
    OccursChar(message, '~', firstTilde);
    assert '~' in message ==> firstTilde != -1 by {
      if '~' in message {
        var k :| 0 <= k < |message| && message[k] == '~';
        OccursChar(message, '~', k);
      }
    }
    assert firstTilde != -1 ==> '~' !in message[..firstTilde] by {
      if firstTilde != -1 {
        forall k | 0 <= k < firstTilde ensures message[k] != '~' {
          OccursChar(message, '~', k);
        }
      }
    }
    var secondTilde := IndexOf(message, Separator, firstTilde + 1);
    var thirdTilde := IndexOf(message, Separator, secondTilde + 1);
    var fourthTilde := IndexOf(message, Separator, thirdTilde + 1);
    if firstTilde == -1 then Tildes(-1, -1, -1, |message|)
    else if secondTilde == -1 then Tildes(firstTilde, -1, -1, |message|)
    else Tildes(firstTilde, secondTilde, thirdTilde, if fourthTilde == -1 then |message| else fourthTilde)
  }

  /** What the loop body of getStats does with one message. `Failed` stands
      for the StringIndexOutOfBoundsException thrown by substring, which the
      catch block turns into "stop and return the map built so far". */
  datatype Outcome = Skipped | Counted(component: string, exception: string) | Failed

  /** The per-message step of getStats: a message is looked at only when it
      holds a '~' and a " ~ " somewhere; the component is the trimmed text
      between the first '~' and the next separator, and the exception class
      is taken from the field after the third separator. */
  function ParseMessage(message: string): (o: Outcome)
    ensures var t := Locate(message);
            && (o == Failed <==> t.first != -1 && LastIndexOf(message, Separator, |message|) != -1 && t.second == -1)
            && (o.Counted? <==> t.first != -1 && t.second != -1 && t.third != -1)
  {
    var t := Locate(message);
    if t.first != -1 && LastIndexOf(message, Separator, |message|) != -1 then
      if t.second == -1 then
        // message.substring(firstTilde + 1, -1) throws
        Failed
      else
        var component := Trim(message[t.first + 1..t.second]);
        if t.third != -1 then
          Counted(component, ExtractExceptionClass(message, t.third, t.fourth))
        else
          Skipped
    else
      Skipped
  }

  /** A counted message is filed under the trimmed text between its first
      '~' and the next separator, which neither starts nor ends with a
      space, and under the class name taken from the field after the third
      separator, which is "" or a dot-free name ending in "Exception". */
  lemma CountedFields(message: string)
    requires ParseMessage(message).Counted?
    ensures var o, t := ParseMessage(message), Locate(message);
            && 0 <= t.first < t.second && t.third + 1 <= t.fourth <= |message|
            && o.component == Trim(message[t.first + 1..t.second])
            && o.exception == ExtractExceptionClass(message, t.third, t.fourth)
            && (o.component == [] || (!IsJavaSpace(o.component[0]) && !IsJavaSpace(o.component[|o.component| - 1])))
            && (o.exception == [] || (NoDot(o.exception) && EndsWith(o.exception, "Exception")))
  {
    var t := Locate(message);
    TrimEnds(message[t.first + 1..t.second]);
  }

  /** A message without a '~' or without any " ~ " is passed over; one whose
      first '~' is not followed by a separator stops the scan. */
  lemma ParseMessageOutcome(message: string)
    ensures '~' !in message || !Contains(message, Separator) ==> ParseMessage(message) == Skipped
    ensures ParseMessage(message) == Failed <==>
              '~' in message && Contains(message, Separator) && Locate(message).second == -1
  {
    LastIndexOfContains(message, Separator);
    var t := Locate(message);
    if t.second != -1 {
      assert Contains(message, Separator);
    }
  }

  /** The characters of a separator. */
  lemma SeparatorAt(s: string, k: int)
    requires Occurs(s, Separator, k)
    ensures k + 2 < |s| && s[k] == ' ' && s[k + 1] == '~' && s[k + 2] == ' '
  {
    assert s[k..k + 3][0] == s[k] && s[k..k + 3][1] == s[k + 1] && s[k..k + 3][2] == s[k + 2];
  }

  /** The message holds exactly one separator, at `k`, and its '~' is the
      first '~' of the message. */
  ghost predicate SoleSeparatorAtFirstTilde(message: string, k: int)
  {
    && Occurs(message, Separator, k)
    && '~' !in message[..k + 1]
    && forall i :: Occurs(message, Separator, i) ==> i == k
  }

  /** The substring call throws exactly on the messages with a single
      separator whose '~' is the first '~', such as "x ~ y". */
  lemma FailsIffSoleSeparator(message: string)
    ensures ParseMessage(message) == Failed <==> exists k :: SoleSeparatorAtFirstTilde(message, k)
  {
    ParseMessageOutcome(message);
    var t := Locate(message);
    if ParseMessage(message) == Failed {
      forall i | Occurs(message, Separator, i) ensures i == t.first - 1 {
        SeparatorAt(message, i);
        assert message[i + 1] == '~';
        assert t.first <= i + 1;
        assert !(t.first + 1 <= i < |message|);
      }
      var k := t.first - 1;
      assert Occurs(message, Separator, k) by {
        var j :| Occurs(message, Separator, j);
      }
      assert message[..k + 1] == message[..t.first];
      assert SoleSeparatorAtFirstTilde(message, k);
    }
    if exists k :: SoleSeparatorAtFirstTilde(message, k) {
      var k :| SoleSeparatorAtFirstTilde(message, k);
      SeparatorAt(message, k);
      assert '~' in message by {
        assert message[k + 1] == '~';
      }
      assert t.first >= k + 1;
      assert t.first <= k + 1;
      assert Contains(message, Separator);
      assert t.second == -1;
    }
  }

  /** A two-field line stops the scan. */
  lemma TwoFieldLineFails()
    ensures ParseMessage("x ~ y") == Failed
  {
    var m := "x ~ y";
    assert Occurs(m, Separator, 1);
    assert SoleSeparatorAtFirstTilde(m, 1) by {
      forall i | Occurs(m, Separator, i) ensures i == 1 {
        SeparatorAt(m, i);
      }
    }
    FailsIffSoleSeparator(m);
  }

  // ---------------------------------------------------------------------
  // getStats

  /** The outcome of each message, in order. */
  function Outcomes(msgs: seq<string>): (os: seq<Outcome>)
    ensures |os| == |msgs|
  {
    if msgs == [] then [] else Outcomes(msgs[..|msgs| - 1]) + [ParseMessage(msgs[|msgs| - 1])]
  }

  lemma {:induction false} OutcomesAt(msgs: seq<string>, i: nat)
    requires i < |msgs|
    ensures Outcomes(msgs)[i] == ParseMessage(msgs[i])
  {
    if i < |msgs| - 1 {
      OutcomesAt(msgs[..|msgs| - 1], i);
    }
  }

  lemma {:induction false} OutcomesPrefix(msgs: seq<string>, n: nat)
    requires n <= |msgs|
    ensures Outcomes(msgs[..n]) == Outcomes(msgs)[..n]
  {
    if n < |msgs| {
      var front := msgs[..|msgs| - 1];
      OutcomesPrefix(front, n);
      assert front[..n] == msgs[..n];
    } else {
      assert msgs[..n] == msgs;
    }
  }

  /** No outcome stops the scan. */
  predicate NoFailure(os: seq<Outcome>)
  {
    forall i :: 0 <= i < |os| ==> os[i] != Failed
  }

  /** The position of the first outcome that stops the scan, or |os|. */
  function FirstFailure(os: seq<Outcome>): (n: nat)
    ensures n <= |os|
    ensures forall i :: 0 <= i < n ==> os[i] != Failed
    ensures n < |os| ==> os[n] == Failed
  {
    if os == [] then 0
    else if os[0] == Failed then 0
    else 1 + FirstFailure(os[1..])
  }

  /** The pairs of the counted outcomes, in order. */
  function CountedPairs(os: seq<Outcome>): (pairs: seq<(string, string)>)
    ensures |pairs| <= |os|
  {
    if os == [] then []
    else
      var o := os[|os| - 1];
      CountedPairs(os[..|os| - 1]) + (if o.Counted? then [(o.component, o.exception)] else [])
  }

  /** What getStats returns for the events `msgs`: the counts of the messages
      before the first one that stops the scan. */
  function StatsOf(msgs: seq<string>): (m: Stats)
    ensures WellFormed(m)
  {
    var os := Outcomes(msgs);
    Tally(CountedPairs(os[..FirstFailure(os)]))
  }

  /** How many outcomes are the pair (component, exception). */
  function Matching(os: seq<Outcome>, component: string, exception: string): nat
  {
    if os == [] then 0
    else
      Matching(os[..|os| - 1], component, exception)
      + (if os[|os| - 1] == Counted(component, exception) then 1 else 0)
  }

  lemma {:induction false} CountedPairsMatching(os: seq<Outcome>, component: string, exception: string)
    ensures Occurrences(CountedPairs(os), component, exception) == Matching(os, component, exception)
  {
    if os != [] {
      var front := os[..|os| - 1];
      CountedPairsMatching(front, component, exception);
      var o := os[|os| - 1];
      var tail := if o.Counted? then [(o.component, o.exception)] else [];
      OccurrencesAppend(CountedPairs(front), tail, component, exception);
    }
  }

  /** Each count getStats returns is the number of messages before the first
      stopping one that parse to that pair (0 for a pair never seen). */
  lemma StatsCounts(msgs: seq<string>, component: string, exception: string)
    ensures var os := Outcomes(msgs);
            Count(StatsOf(msgs), component, exception) == Matching(os[..FirstFailure(os)], component, exception)
  {
    var os := Outcomes(msgs);
    var prefix := os[..FirstFailure(os)];
    TallyCounts(CountedPairs(prefix), component, exception);
    CountedPairsMatching(prefix, component, exception);
  }

  /** The first stopping outcome is where FirstFailure points. */
  lemma FirstFailureIs(os: seq<Outcome>, n: nat)
    requires n <= |os|
    requires forall i :: 0 <= i < n ==> os[i] != Failed
    requires n < |os| ==> os[n] == Failed
    ensures FirstFailure(os) == n
  {
  }

  /** One more message: one more outcome, and one more pair if it is counted. */
  lemma OutcomesStep(seen: seq<string>, message: string)
    ensures Outcomes(seen + [message]) == Outcomes(seen) + [ParseMessage(message)]
    ensures var o := ParseMessage(message);
            CountedPairs(Outcomes(seen + [message]))
            == CountedPairs(Outcomes(seen)) + (if o.Counted? then [(o.component, o.exception)] else [])
  {
    assert (seen + [message])[..|seen|] == seen;
    var os := Outcomes(seen + [message]);
    assert os[..|os| - 1] == Outcomes(seen);
  }

  /** Partial result: when the messages `seen` do not throw and the next one
      does, getStats returns exactly the counts of `seen`, whatever follows. */
  lemma StopsAt(msgs: seq<string>, seen: seq<string>, message: string)
    requires seen + [message] <= msgs
    requires NoFailure(Outcomes(seen)) && ParseMessage(message) == Failed
    ensures StatsOf(msgs) == Tally(CountedPairs(Outcomes(seen)))
  {
    var n := |seen|;
    assert msgs[..n + 1] == seen + [message];
    OutcomesPrefix(msgs, n + 1);
    OutcomesStep(seen, message);
    FailureCut(Outcomes(msgs), Outcomes(seen));
  }

  /** Outcomes that begin with `pre`, free of failures, followed by a
      failure: the first failure is right after `pre`. */
  lemma FailureCut(os: seq<Outcome>, pre: seq<Outcome>)
    requires |pre| < |os| && os[..|pre| + 1] == pre + [Failed]
    requires NoFailure(pre)
    ensures FirstFailure(os) == |pre| && os[..|pre|] == pre
  {
    var n := |pre|;
    forall i | 0 <= i <= n ensures os[i] == (pre + [Failed])[i] {
      assert os[..n + 1][i] == os[i];
    }
    FirstFailureIs(os, n);
    assert os[..n] == pre;
  }

  /** The scan runs to the end when no message throws. */
  lemma RunsToEnd(msgs: seq<string>)
    requires NoFailure(Outcomes(msgs))
    ensures StatsOf(msgs) == Tally(CountedPairs(Outcomes(msgs)))
  {
    var os := Outcomes(msgs);
    FirstFailureIs(os, |os|);
    assert os[..|os|] == os;
  }

  /** The state of getStats after the messages `seen`, none of which threw,
      and the next message: either the scan stops with the same map, or the
      map and the messages seen grow by that message. */
  lemma Step(seen: seq<string>, message: string)
    requires NoFailure(Outcomes(seen))
    ensures var o := ParseMessage(message);
            && (o != Failed ==> NoFailure(Outcomes(seen + [message])))
            && (o.Counted? ==>
                  Tally(CountedPairs(Outcomes(seen + [message])))
                  == Record(Tally(CountedPairs(Outcomes(seen))), o.component, o.exception))
            && (o == Skipped ==>
                  Tally(CountedPairs(Outcomes(seen + [message]))) == Tally(CountedPairs(Outcomes(seen))))
  {
    var o := ParseMessage(message);
    OutcomesStep(seen, message);
    TallyStep(CountedPairs(Outcomes(seen)), if o.Counted? then [(o.component, o.exception)] else []);
  }

  /** getStats over the pages of filterLogEvents responses: every message is
      parsed in turn, counted pairs are recorded in the map, and the first
      message whose substring call throws ends the whole scan (the catch
      block), leaving the map as it was before that message. */
  method GetStats(pages: seq<seq<string>>) returns (compExecpMap: Stats)
    ensures compExecpMap == StatsOf(Messages(pages))
  {
    compExecpMap := map[];
    ghost var all := Messages(pages);
    ghost var seen: seq<string> := [];
    var p := 0;
    while p < |pages|
      invariant 0 <= p <= |pages|
      invariant seen == Messages(pages[..p])
      invariant NoFailure(Outcomes(seen))
      invariant compExecpMap == Tally(CountedPairs(Outcomes(seen)))
    {
      var events := pages[p];
      MessagesStep(pages, p);
      MessagesPrefix(pages, p + 1);
      ghost var front := seen;
      var i := 0;
      while i < |events|
        invariant 0 <= i <= |events|
        invariant seen == front + events[..i]
        invariant NoFailure(Outcomes(seen))
        invariant compExecpMap == Tally(CountedPairs(Outcomes(seen)))
      {
        var message := events[i];
        var outcome := ParseMessage(message);
        PrefixGrows(all, front, events, i);
        Step(seen, message);
        if outcome == Failed {
          StopsAt(all, seen, message);
          return;
        }
        if outcome.Counted? {
          compExecpMap := Record(compExecpMap, outcome.component, outcome.exception);
        }
        seen := seen + [message];
        i := i + 1;
      }
      assert events[..i] == events;
      p := p + 1;
    }
    assert pages[..p] == pages;
    RunsToEnd(seen);
  }

  // ---------------------------------------------------------------------
  // getDataInTableFormat

  /** The opening of the table and its header row; no closing tag follows. */
  const TableHead: string := "<table border='1'><tr><th>Component</th><th>Exception</th><th>Count</th></tr>"

  /** One row: component, exception and count cells. */
  function RowHtml(x: Entry): string
  {
    "<tr><td>" + x.component + "</td><td>" + x.exception + "</td><td>" + NatToString(x.count) + "</td></tr>"
  }

  /** The rows, appended one after the other. */
  function RowsHtml(es: seq<Entry>): string
  {
    if es == [] then "" else RowsHtml(es[..|es| - 1]) + RowHtml(es[|es| - 1])
  }

  /** The table the renderer builds when the maps are visited in the given
      order: the header, then one row per entry. */
  function TableHtml(m: Stats, comps: seq<string>, order: map<string, seq<string>>): string
    requires Covers(m, comps, order)
  {
    TableHead + RowsHtml(Entries(m, comps, order))
  }

  /** The table starts with the header and then lists every (component,
      exception) entry of the map once, with its count, whatever the
      iteration order. */
  lemma TableListsEntries(m: Stats, comps: seq<string>, order: map<string, seq<string>>)
    requires IterationOrder(m, comps, order)
    ensures Covers(m, comps, order)
    ensures var es := Entries(m, comps, order);
            && TableHtml(m, comps, order) == TableHead + RowsHtml(es)
            && ExactEntries(m, es)
  {
    EntriesExact(m, comps, order);
  }

  /** An empty map yields the header alone. */
  lemma EmptyTable(comps: seq<string>, order: map<string, seq<string>>)
    requires IterationOrder(map[], comps, order)
    ensures TableHtml(map[], comps, order) == TableHead
  {
    EnumerationSize(comps, {});
  }

  /** One more exception row of the component being printed. */
  lemma InnerStep(done: seq<Entry>, component: string, inner: map<string, nat>, es: seq<string>, j: nat)
    requires j < |es| && forall e :: e in es ==> e in inner
    ensures forall e :: e in es[..j + 1] ==> e in inner
    ensures forall e :: e in es[..j] ==> e in inner
    ensures RowsHtml(done + InnerEntries(component, inner, es[..j + 1]))
            == RowsHtml(done + InnerEntries(component, inner, es[..j]))
               + RowHtml(Entry(component, es[j], inner[es[j]]))
  {
    assert es[..j + 1][..j] == es[..j];
    var x := Entry(component, es[j], inner[es[j]]);
    var before := InnerEntries(component, inner, es[..j]);
    assert InnerEntries(component, inner, es[..j + 1]) == before + [x];
    assert done + (before + [x]) == (done + before) + [x];
    assert ((done + before) + [x])[..|done + before|] == done + before;
  }

  /** One more component. */
  lemma OuterStep(m: Stats, comps: seq<string>, order: map<string, seq<string>>, i: nat)
    requires Covers(m, comps, order) && i < |comps|
    ensures Covers(m, comps[..i], order) && Covers(m, comps[..i + 1], order)
    ensures var c := comps[i];
            c in m && c in order && (forall e :: e in order[c] ==> e in m[c])
            && Entries(m, comps[..i + 1], order)
               == Entries(m, comps[..i], order) + InnerEntries(c, m[c], order[c])
  {
    CoversPrefix(m, comps, order, i);
    CoversPrefix(m, comps, order, i + 1);
    assert comps[..i + 1][..i] == comps[..i];
  }

  /** getDataInTableFormat: the header, then for each component and each of
      its exceptions one row with the count, in the maps' iteration order. */
  method GetDataInTableFormat(compExecpMap: Stats, comps: seq<string>, order: map<string, seq<string>>)
    returns (htmlTable: string)
    requires IterationOrder(compExecpMap, comps, order)
    ensures htmlTable == TableHtml(compExecpMap, comps, order)
  {
    htmlTable := TableHead;
    var i := 0;
    while i < |comps|
      invariant 0 <= i <= |comps|
      invariant Covers(compExecpMap, comps[..i], order)
      invariant htmlTable == TableHead + RowsHtml(Entries(compExecpMap, comps[..i], order))
    {
      var component := comps[i];
      OuterStep(compExecpMap, comps, order, i);
      htmlTable := AppendComponentRows(htmlTable, TableHead, Entries(compExecpMap, comps[..i], order),
                                       component, compExecpMap[component], order[component]);
      i := i + 1;
    }
    assert comps[..i] == comps;
  }

  /** The inner loop of getDataInTableFormat: one row per exception of the
      component, appended after the text `head` and the rows `done`. */
  method AppendComponentRows(htmlTable: string, ghost head: string, ghost done: seq<Entry>, component: string,
                             exceptionMap: map<string, nat>, exceptions: seq<string>)
    returns (h: string)
    requires forall e :: e in exceptions ==> e in exceptionMap
    requires htmlTable == head + RowsHtml(done)
    ensures h == head + RowsHtml(done + InnerEntries(component, exceptionMap, exceptions))
  {
    h := htmlTable;
    var j := 0;
    assert done + InnerEntries(component, exceptionMap, exceptions[..0]) == done;
    while j < |exceptions|
      invariant 0 <= j <= |exceptions|
      invariant h == head + RowsHtml(done + InnerEntries(component, exceptionMap, exceptions[..j]))
    {
      var exception := exceptions[j];
      var count := exceptionMap[exception];
      InnerStep(done, component, exceptionMap, exceptions, j);
      ghost var rows := RowsHtml(done + InnerEntries(component, exceptionMap, exceptions[..j]));
      var row := RowHtml(Entry(component, exception, count));
      ConcatAssoc(head, rows, row);
      h := h + row;
      j := j + 1;
    }
    assert exceptions[..j] == exceptions;
  }
}
