/**
 * The newline normalisation of load_unlocked_text (open_file.py):
 * `text.replace("\r\n", "\n").replace("\r", "\n")`.  Both `str.replace`
 * calls are modelled as the left-to-right, non-overlapping scans Python
 * performs; a single-pass reading of the same rule (every line break, in
 * any of the three conventions, becomes one "\n") is the reference they are
 * proved against.
 */
module OpenFile {

  const CR := '\r'
  const LF := '\n'

  /** A "\r\n" pair starts at index i. */
  predicate PairAt(s: string, i: int)
  {
    0 <= i && i + 1 < |s| && s[i] == CR && s[i + 1] == LF
  }

  /** The number of "\r\n" pairs in s; they never overlap. */
  function CountPairs(s: string): (n: nat)
    ensures n <= |s| / 2
    ensures n == 0 <==> forall i :: 0 <= i < |s| ==> !PairAt(s, i)
  {
    if |s| < 2 then 0
    else if s[0] == CR && s[1] == LF then
      assert PairAt(s, 0);
      1 + CountPairs(s[2..])
    else
      PairsShift(s);
      CountPairs(s[1..])
  }

  /** A pair in s is a pair at its head or a pair in its tail. */
  lemma PairsShift(s: string)
    requires |s| >= 1
    ensures (forall i :: 0 <= i < |s| ==> !PairAt(s, i)) <==> !PairAt(s, 0) && forall j :: 0 <= j < |s| - 1 ==> !PairAt(s[1..], j)
  {
    assert forall i :: 1 <= i < |s| ==> (PairAt(s, i) <==> PairAt(s[1..], i - 1));
    assert forall j :: 0 <= j < |s| - 1 ==> (PairAt(s[1..], j) <==> PairAt(s, j + 1));
  }

  /** `s.replace("\r\n", "\n")`: the scan that turns each pair into a single "\n". */
  function ReplacePairs(s: string): (r: string)
    ensures |r| == |s| - CountPairs(s)
  {
    if |s| < 2 then s
    else if s[0] == CR && s[1] == LF then
      [LF] + ReplacePairs(s[2..])
    else
      [s[0]] + ReplacePairs(s[1..])
  }

  /** `s.replace("\r", "\n")`: every carriage return becomes a line feed, nothing else moves. */
  function ReplaceCR(s: string): (r: string)
    ensures |r| == |s|
    ensures forall i :: 0 <= i < |s| ==> r[i] == if s[i] == CR then LF else s[i]
  {
    if s == [] then []
    else [if s[0] == CR then LF else s[0]] + ReplaceCR(s[1..])
  }

  /** The expression on line 78 of open_file.py. */
  function Normalize(s: string): string
  {
    ReplaceCR(ReplacePairs(s))
  }

  /**
   * The reference: one pass that writes "\n" for each line break, whether
   * it is "\r\n", a lone "\r" or a "\n", and copies every other character.
   */
  function Universal(s: string): string
  {
    if s == [] then []
    else if s[0] == CR then
      [LF] + (if |s| >= 2 && s[1] == LF then Universal(s[2..]) else Universal(s[1..]))
    else
      [s[0]] + Universal(s[1..])
  }

  lemma ReplaceCRAppend(a: string, b: string)
    ensures ReplaceCR(a + b) == ReplaceCR(a) + ReplaceCR(b)
  {
    var l, r := ReplaceCR(a + b), ReplaceCR(a) + ReplaceCR(b);
    assert forall i :: 0 <= i < |l| ==> l[i] == r[i] by {
      forall i | 0 <= i < |l|
        ensures l[i] == r[i]
      {
        if i < |a| {
          assert (a + b)[i] == a[i];
        } else {
          assert (a + b)[i] == b[i - |a|];
        }
      }
    }
  }

  /** The two chained replaces do exactly what the single pass does. */
  lemma {:induction false} NormalizeIsUniversal(s: string)
    ensures Normalize(s) == Universal(s)
    decreases |s|
  {
    if s == [] {
    } else if |s| == 1 {
      assert ReplacePairs(s) == s;
    } else if s[0] == CR && s[1] == LF {
      ReplaceCRAppend([LF], ReplacePairs(s[2..]));
      NormalizeIsUniversal(s[2..]);
    } else {
      ReplaceCRAppend([s[0]], ReplacePairs(s[1..]));
      NormalizeIsUniversal(s[1..]);
    }
  }

  /** No carriage return survives normalisation. */
  lemma NormalizeRemovesCR(s: string)
    ensures forall i :: 0 <= i < |Normalize(s)| ==> Normalize(s)[i] != CR
  {
  }

  /** Text without a carriage return is returned unchanged. */
  lemma {:induction false} NoCRUnchanged(s: string)
    requires forall i :: 0 <= i < |s| ==> s[i] != CR
    ensures ReplacePairs(s) == s
    ensures Normalize(s) == s
    decreases |s|
  {
    if |s| >= 2 {
      NoCRUnchanged(s[1..]);
    }
    var r := ReplaceCR(s);
    assert forall i :: 0 <= i < |s| ==> r[i] == s[i];
  }

  /** Normalising twice is normalising once. */
  lemma NormalizeIdempotent(s: string)
    ensures Normalize(Normalize(s)) == Normalize(s)
  {
    NormalizeRemovesCR(s);
    NoCRUnchanged(Normalize(s));
  }

  /**
   * Each "\r\n" pair loses one character and nothing else changes length,
   * so the text keeps its length exactly when it holds no such pair.
   */
  lemma NormalizeLength(s: string)
    ensures |Normalize(s)| == |s| - CountPairs(s)
    ensures |Normalize(s)| <= |s|
    ensures |Normalize(s)| == |s| <==> forall i :: 0 <= i < |s| ==> !PairAt(s, i)
  {
  }

  /** The number of line feeds in s. */
  function Lines(s: string): (n: nat)
    ensures n <= |s|
  {
    if s == [] then 0 else (if s[0] == LF then 1 else 0) + Lines(s[1..])
  }

  /** The number of carriage returns in s. */
  function Returns(s: string): (n: nat)
    ensures n <= |s|
  {
    if s == [] then 0 else (if s[0] == CR then 1 else 0) + Returns(s[1..])
  }

  /**
   * Line breaks are counted the way the three conventions mean them: every
   * "\n" and every "\r" of the input is one break, except that a "\r\n" pair
   * is one break, not two.
   */
  lemma {:induction false} UniversalCountsBreaks(s: string)
    ensures Lines(Universal(s)) == Lines(s) + Returns(s) - CountPairs(s)
    decreases |s|
  {
    if s == [] {
    } else if |s| >= 2 && s[0] == CR && s[1] == LF {
      UniversalCountsBreaks(s[2..]);
      assert s[1..][1..] == s[2..];
      assert Universal(s) == [LF] + Universal(s[2..]);
      LinesAppend([LF], Universal(s[2..]));
    } else {
      UniversalCountsBreaks(s[1..]);
      assert Universal(s) == [if s[0] == CR then LF else s[0]] + Universal(s[1..]);
      LinesAppend([if s[0] == CR then LF else s[0]], Universal(s[1..]));
      if |s| >= 2 {
        assert CountPairs(s) == CountPairs(s[1..]);
      }
    }
  }

  lemma {:induction false} LinesAppend(a: string, b: string)
    ensures Lines(a + b) == Lines(a) + Lines(b)
    decreases |a|
  {
    if a != [] {
      assert (a + b)[1..] == a[1..] + b;
      LinesAppend(a[1..], b);
    } else {
      assert a + b == b;
    }
  }
}
