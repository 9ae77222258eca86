/**
 * The Data Stream Decryption mini-game (data_stream_decrypt.py): random
 * streams over an upper-case alphabet, the per-stage parameters and decoys,
 * the choice of rows and the splice that hide the secret packet in the
 * cascade, the blind-typing state machine, and the stage campaign.
 *
 * Randomness (`random.choice`, `randrange`, `sample`) is a nondeterministic
 * choice; the keyboard is a list of keystrokes and the clock is left out, so
 * running out of keystrokes stands for the time limit expiring.
 */
module DataStream {
  import opened Wrappers

  /** The characters streams are drawn from. */
  const Alphabet: string := "ABCDEFGHIJKLMNOPQRSTUVWXYZ0123456789"

  predicate InAlphabet(s: string)
  {
    forall i :: 0 <= i < |s| ==> s[i] in Alphabet
  }

  /** `str.upper()` on one character, for the ASCII letters. */
  function Upper(c: char): char
  {
    if 'a' <= c <= 'z' then (c as int - 32) as char else c
  }

  /**
   * The alphabet holds 36 characters, all capitals or digits, so `upper()`
   * leaves each of them alone, while a lower-case letter maps to a capital.
   */
  lemma AlphabetIsUpper()
    ensures |Alphabet| == 36
    ensures forall i :: 0 <= i < |Alphabet| ==> ('A' <= Alphabet[i] <= 'Z' || '0' <= Alphabet[i] <= '9')
    ensures forall c :: c in Alphabet ==> Upper(c) == c
    ensures forall c :: 'a' <= c <= 'z' ==> 'A' <= Upper(c) <= 'Z'
  {
  }

  /** generate_random_stream: `length` characters, each drawn from the alphabet. */
  method GenerateRandomStream(length: int) returns (s: string)
    ensures |s| == if length < 0 then 0 else length
    ensures InAlphabet(s)
  {
    s := [];
    var n := 0;
    while n < length
      invariant |s| == n && (length < 0 ==> n == 0) && (0 <= length ==> n <= length)
      invariant InAlphabet(s)
    {
      var k :| 0 <= k < |Alphabet|;
      s := s + [Alphabet[k]];
      n := n + 1;
    }
  }

  /** The keyword arguments of data_stream_decrypt. */
  datatype Settings = Settings(maxStages: int, baseWidth: int, baseRows: int, alertThreshold: int)

  /** The defaults: five stages, 40 columns and 12 rows at first, three alerts allowed. */
  const Defaults := Settings(5, 40, 12, 3)

  function Width(st: Settings, stage: int): int
  {
    st.baseWidth + (stage - 1) * 5
  }

  function Rows(st: Settings, stage: int): int
  {
    st.baseRows + (stage - 1) * 3
  }

  function CodeLen(stage: int): int
  {
    4 + (stage - 1)
  }

  /** Stages 4 and later carry decoy packets: two at stage 4, three after. */
  function DecoyCount(stage: int): (n: nat)
    ensures n <= 3
    ensures n > 0 <==> stage >= 4
  {
    if stage >= 4 then (if stage == 4 then 2 else 3) else 0
  }

  /**
   * Each stage is wider, taller and asks for a longer packet than the one
   * before, with at least as many decoys; stage s asks for s + 3 characters.
   */
  lemma StagesGrow(st: Settings, s: int, t: int)
    requires 1 <= s < t
    ensures Width(st, s) < Width(st, t) && Rows(st, s) < Rows(st, t)
    ensures CodeLen(s) == s + 3 && CodeLen(s) < CodeLen(t)
    ensures DecoyCount(s) <= DecoyCount(t)
  {
  }

  /**
   * What the stream needs to be drawn without a ValueError: a non-empty row
   * range [2, rows - 2), room in it for the decoys beside the secret, and
   * lines wider than a packet.
   */
  predicate StageFits(st: Settings, stage: int)
  {
    && Rows(st, stage) >= 5
    && DecoyCount(stage) <= Rows(st, stage) - 5
    && Width(st, stage) > CodeLen(stage)
  }

  /** With the default settings every stage, however late, can be drawn. */
  lemma DefaultsFit(stage: int)
    requires stage >= 1
    ensures StageFits(Defaults, stage)
  {
  }

  /** The integers lo, lo + 1, ..., hi - 1, as `range(lo, hi)`. */
  function Span(lo: int, hi: int): (s: seq<int>)
    ensures |s| == if lo <= hi then hi - lo else 0
    ensures forall i :: 0 <= i < |s| ==> s[i] == lo + i
  {
    if lo <= hi then seq(hi - lo, i => lo + i) else []
  }

  /** `[r for r in range(2, rows - 2) if r != secret_row]`. */
  function Candidates(rows: int, secretRow: int): (c: seq<int>)
    requires 2 <= secretRow < rows - 2
    ensures |c| == rows - 5 && Distinct(c)
    ensures forall r :: r in c <==> 2 <= r < rows - 2 && r != secretRow
  {
    var c := Span(2, secretRow) + Span(secretRow + 1, rows - 2);
    assert forall r :: 2 <= r < rows - 2 && r != secretRow ==> r in c by {
      forall r | 2 <= r < rows - 2 && r != secretRow
        ensures r in c
      {
        if r < secretRow {
          assert c[r - 2] == r;
        } else {
          assert c[r - 3] == r;
        }
      }
    }
    c
  }

  /** Taking one element out of a duplicate-free sequence leaves the others, without it, duplicate-free. */
  lemma RemoveKeepsDistinct(s: seq<int>, j: nat)
    requires Distinct(s) && j < |s|
    ensures Distinct(s[..j] + s[j + 1..])
    ensures forall x :: x in s[..j] + s[j + 1..] <==> x in s && x != s[j]
  {
    var t := s[..j] + s[j + 1..];
    assert forall i :: 0 <= i < |t| ==> t[i] == if i < j then s[i] else s[i + 1];
    forall x | x in s && x != s[j]
      ensures x in t
    {
      var i :| 0 <= i < |s| && s[i] == x;
      if i < j {
        assert t[i] == x;
      } else {
        assert t[i - 1] == x;
      }
    }
  }

  /**
   * random.sample: `k` distinct draws from the population, by removing a
   * randomly chosen element from a shrinking pool `k` times.
   */
  method Sample(population: seq<int>, k: int) returns (picked: seq<int>)
    requires Distinct(population) && 0 <= k <= |population|
    ensures |picked| == k && Distinct(picked)
    ensures forall x :: x in picked ==> x in population
  {
    picked := [];
    var pool := population;
    while |picked| < k
      invariant |picked| + |pool| == |population| && |picked| <= k
      invariant Distinct(picked) && Distinct(pool)
      invariant forall x :: x in picked ==> x in population && x !in pool
      invariant forall x :: x in pool ==> x in population
    {
      var j :| 0 <= j < |pool|;
      var x := pool[j];
      RemoveKeepsDistinct(pool, j);
      assert x !in picked;
      assert forall i :: 0 <= i < |picked| ==> (picked + [x])[i] == picked[i];
      picked := picked + [x];
      pool := pool[..j] + pool[j + 1..];
    }
  }

  /** The rows `_scroll_stream` picks: the secret's and, distinct from it and each other, the decoys'. */
  predicate RowsChosen(rows: int, k: int, secretRow: int, decoyRows: seq<int>)
  {
    && 2 <= secretRow < rows - 2
    && |decoyRows| == k && Distinct(decoyRows)
    && forall i :: 0 <= i < |decoyRows| ==> 2 <= decoyRows[i] < rows - 2 && decoyRows[i] != secretRow
  }

  /**
   * The row choice of _scroll_stream.  `randrange(2, rows - 2)` fails on an
   * empty range and `sample` fails when asked for more rows than remain,
   * which is what `None` stands for.
   */
  method ChooseRows(rows: int, k: nat) returns (r: Option<(int, seq<int>)>)
    ensures r.None? <==> rows < 5 || k > rows - 5
    ensures r.Some? ==> RowsChosen(rows, k, r.value.0, r.value.1)
  {
    if rows - 2 <= 2 {
      return None;
    }
    var secretRow :| 2 <= secretRow < rows - 2;
    var population := Candidates(rows, secretRow);
    if k > |population| {
      return None;
    }
    var decoyRows := Sample(population, k);
    assert forall i :: 0 <= i < |decoyRows| ==> decoyRows[i] in population;
    return Some((secretRow, decoyRows));
  }

  /** Python's `buffer[pos:pos + len(piece)] = piece` for `pos >= 0`, bounds clamped as Python does. */
  function SliceAssign(buffer: string, pos: nat, piece: string): (r: string)
    ensures pos + |piece| <= |buffer| ==>
              && |r| == |buffer|
              && r[pos..pos + |piece|] == piece
              && r[..pos] == buffer[..pos] && r[pos + |piece|..] == buffer[pos + |piece|..]
  {
    var a := if pos < |buffer| then pos else |buffer|;
    var b := if pos + |piece| < |buffer| then pos + |piece| else |buffer|;
    buffer[..a] + piece + buffer[b..]
  }

  /** `piece` sits in `line` starting at `pos`. */
  predicate Holds(line: string, pos: int, piece: string)
  {
    0 <= pos && pos + |piece| <= |line| && line[pos..pos + |piece|] == piece
  }

  /**
   * Splicing a packet into a random line keeps the line's length, puts the
   * packet where it was aimed, and keeps every other character from the
   * alphabet.
   */
  lemma SpliceHolds(buffer: string, pos: nat, piece: string)
    requires pos + |piece| <= |buffer| && InAlphabet(buffer)
    ensures |SliceAssign(buffer, pos, piece)| == |buffer|
    ensures Holds(SliceAssign(buffer, pos, piece), pos, piece)
    ensures forall i :: 0 <= i < |buffer| && !(pos <= i < pos + |piece|) ==> SliceAssign(buffer, pos, piece)[i] in Alphabet
  {
    var r := SliceAssign(buffer, pos, piece);
    forall i | 0 <= i < |buffer| && !(pos <= i < pos + |piece|)
      ensures r[i] in Alphabet
    {
      if i < pos {
        assert r[i] == r[..pos][i] == buffer[..pos][i];
      } else {
        assert r[i] == r[pos + |piece|..][i - pos - |piece|] == buffer[pos + |piece|..][i - pos - |piece|];
      }
    }
  }

  /**
   * A packet row as drawn: the piece sits at `pos`, which `randrange(0,
   * width - len)` keeps strictly below |line| - |piece|, and every
   * character around it is random text from the alphabet.
   */
  predicate Carries(line: string, pos: int, piece: string)
  {
    && Holds(line, pos, piece)
    && pos < |line| - |piece|
    && forall i :: 0 <= i < |line| && !(pos <= i < pos + |piece|) ==> line[i] in Alphabet
  }

  /** One line of the cascade with a packet spliced in at a random place in [0, width - |piece|). */
  method SpliceLine(width: int, piece: string) returns (line: string, pos: int)
    requires width > |piece|
    ensures |line| == width && Carries(line, pos, piece)
  {
    var buffer := GenerateRandomStream(width);
    pos :| 0 <= pos < width - |piece|;
    SpliceHolds(buffer, pos, piece);
    line := SliceAssign(buffer, pos, piece);
  }

  /** Where the cascade hides the secret and the decoys. */
  datatype Stream = Stream(lines: seq<string>, secretRow: int, secretPos: int, decoyRows: seq<int>, decoyPos: seq<int>)

  /**
   * What a drawn cascade promises: its shape, where each packet can be read
   * off, and random alphabet text everywhere else.
   */
  predicate Drawn(s: Stream, secret: string, decoys: seq<string>, rows: int, width: int)
  {
    && |s.lines| == rows
    && (forall j :: 0 <= j < rows ==> |s.lines[j]| == width)
    && RowsChosen(rows, |decoys|, s.secretRow, s.decoyRows)
    && Carries(s.lines[s.secretRow], s.secretPos, secret)
    && |s.decoyPos| == |decoys|
    && (forall i :: 0 <= i < |decoys| ==> Carries(s.lines[s.decoyRows[i]], s.decoyPos[i], decoys[i]))
    && (forall j :: 0 <= j < rows && j != s.secretRow && j !in s.decoyRows ==> InAlphabet(s.lines[j]))
  }

  /** The first index at which `x` occurs, as `list.index`. */
  function IndexOf(s: seq<int>, x: int): (i: nat)
    requires x in s
    ensures i < |s| && s[i] == x && x !in s[..i]
  {
    if s[0] == x then 0 else 1 + IndexOf(s[1..], x)
  }

  /**
   * _scroll_stream without the display: every row is a random line; the
   * secret's row and each decoy's row get their packet spliced in.  `None`
   * is the ValueError some `randrange` or `sample` call raises.
   */
  method ScrollStream(secret: string, decoys: seq<string>, rows: int, width: int) returns (r: Option<Stream>)
    ensures r.None? <==> rows < 5 || |decoys| > rows - 5 || width <= |secret|
                         || exists i :: 0 <= i < |decoys| && width <= |decoys[i]|
    ensures r.Some? ==> Drawn(r.value, secret, decoys, rows, width)
  {
    var chosen := ChooseRows(rows, |decoys|);
    if chosen.None? {
      return None;
    }
    var (secretRow, decoyRows) := chosen.value;
    var lines: seq<string> := [];
    var secretPos := 0;
    var decoyPos := seq(|decoys|, _ => 0);
    for row := 0 to rows
      invariant |lines| == row && |decoyPos| == |decoys|
      invariant forall j :: 0 <= j < row ==> |lines[j]| == if width < 0 then 0 else width
      invariant secretRow < row ==> width > |secret| && Carries(lines[secretRow], secretPos, secret)
      invariant forall i :: 0 <= i < |decoys| && decoyRows[i] < row ==>
                  width > |decoys[i]| && Carries(lines[decoyRows[i]], decoyPos[i], decoys[i])
      invariant forall j :: 0 <= j < row && j != secretRow && j !in decoyRows ==> InAlphabet(lines[j])
    {
      var line;
      if row == secretRow {
        if width - |secret| <= 0 {
          return None;
        }
        var pos;
        line, pos := SpliceLine(width, secret);
        secretPos := pos;
      } else if row in decoyRows {
        var idx := IndexOf(decoyRows, row);
        if width - |decoys[idx]| <= 0 {
          return None;
        }
        var pos;
        line, pos := SpliceLine(width, decoys[idx]);
        decoyPos := decoyPos[idx := pos];
      } else {
        line := GenerateRandomStream(width);
      }
      lines := lines + [line];
    }
    return Some(Stream(lines, secretRow, secretPos, decoyRows, decoyPos));
  }

  /** A key from `term.inkey`: nothing before the timeout, a special key, or a character. */
  datatype Keystroke = NoKey | Special | Key(c: char)

  /** The input phase's state: the characters accepted so far and the alert level. */
  datatype Attempt = Attempt(entered: string, alert: nat)

  /**
   * One pass of the input loop: an empty or special key changes nothing; a
   * key whose upper case is the next secret character is accepted; any
   * other key raises the alert.
   */
  function Press(secret: string, a: Attempt, k: Keystroke): (a': Attempt)
    requires |a.entered| < |secret|
    ensures k.Key? && Upper(k.c) == secret[|a.entered|] ==> a' == Attempt(a.entered + [secret[|a.entered|]], a.alert)
    ensures k.Key? && Upper(k.c) != secret[|a.entered|] ==> a' == Attempt(a.entered, a.alert + 1)
    ensures !k.Key? ==> a' == a
  {
    if !k.Key? then a
    else if Upper(k.c) == secret[|a.entered|] then Attempt(a.entered + [Upper(k.c)], a.alert)
    else Attempt(a.entered, a.alert + 1)
  }

  predicate IsPrefix(p: string, s: string)
  {
    |p| <= |s| && p == s[..|p|]
  }

  /** A keystroke keeps the typed text a prefix of the secret, and each real key counts once, as progress or as an alert. */
  lemma PressKeepsPrefix(secret: string, a: Attempt, k: Keystroke)
    requires |a.entered| < |secret| && IsPrefix(a.entered, secret)
    ensures IsPrefix(Press(secret, a, k).entered, secret)
    ensures |Press(secret, a, k).entered| + Press(secret, a, k).alert == |a.entered| + a.alert + (if k.Key? then 1 else 0)
  {
    var n := |a.entered|;
    if k.Key? && Upper(k.c) == secret[n] {
      assert secret[..n + 1] == secret[..n] + [secret[n]];
    }
  }

  /**
   * The input loop: keystrokes are taken while the packet is incomplete and
   * the alert is below the threshold.  Keystrokes left over are ignored.
   */
  function Typing(secret: string, threshold: int, a: Attempt, keys: seq<Keystroke>): (r: Attempt)
    decreases |keys|
  {
    if |a.entered| < |secret| && a.alert < threshold && keys != [] then
      Typing(secret, threshold, Press(secret, a, keys[0]), keys[1..])
    else
      a
  }

  /** The outcome test of a stage. */
  predicate Succeeded(secret: string, threshold: int, a: Attempt)
  {
    a.entered == secret && a.alert < threshold
  }

  /**
   * Typing keeps the entered text a prefix of the secret; the alert only
   * grows, and it never passes the threshold.
   */
  lemma {:induction false} TypingKeepsPrefix(secret: string, threshold: int, a: Attempt, keys: seq<Keystroke>)
    requires IsPrefix(a.entered, secret)
    ensures IsPrefix(Typing(secret, threshold, a, keys).entered, secret)
    ensures a.alert <= Typing(secret, threshold, a, keys).alert
    ensures a.alert <= threshold ==> Typing(secret, threshold, a, keys).alert <= threshold
    decreases |keys|
  {
    if |a.entered| < |secret| && a.alert < threshold && keys != [] {
      PressKeepsPrefix(secret, a, keys[0]);
      TypingKeepsPrefix(secret, threshold, Press(secret, a, keys[0]), keys[1..]);
    }
  }

  /** A stage succeeds exactly when the whole packet was typed before the alert reached the threshold. */
  lemma SuccessIffComplete(secret: string, threshold: int, keys: seq<Keystroke>)
    ensures var r := Typing(secret, threshold, Attempt([], 0), keys);
            Succeeded(secret, threshold, r) <==> |r.entered| == |secret| && r.alert < threshold
  {
    TypingKeepsPrefix(secret, threshold, Attempt([], 0), keys);
  }

  /** Typing one batch of keystrokes and then another is typing them all at once. */
  lemma {:induction false} TypingSplits(secret: string, threshold: int, a: Attempt, keys: seq<Keystroke>, more: seq<Keystroke>)
    ensures Typing(secret, threshold, a, keys + more) == Typing(secret, threshold, Typing(secret, threshold, a, keys), more)
    decreases |keys|
  {
    if |a.entered| < |secret| && a.alert < threshold && keys != [] {
      assert (keys + more)[1..] == keys[1..] + more;
      TypingSplits(secret, threshold, Press(secret, a, keys[0]), keys[1..], more);
    } else if keys == [] {
      assert keys + more == more;
    }
  }

  /** The keystrokes that are characters. */
  function RealKeys(keys: seq<Keystroke>): (n: nat)
    ensures n <= |keys|
  {
    if keys == [] then 0 else (if keys[0].Key? then 1 else 0) + RealKeys(keys[1..])
  }

  /**
   * Enough real keystrokes always decide the stage: the packet is complete
   * or the alert has reached the threshold.
   */
  lemma {:induction false} TypingDecides(secret: string, threshold: int, a: Attempt, keys: seq<Keystroke>)
    requires IsPrefix(a.entered, secret)
    requires RealKeys(keys) >= (|secret| - |a.entered|) + (threshold - a.alert)
    ensures var r := Typing(secret, threshold, a, keys);
            |r.entered| == |secret| || r.alert >= threshold
    decreases |keys|
  {
    if |a.entered| < |secret| && a.alert < threshold && keys != [] {
      PressKeepsPrefix(secret, a, keys[0]);
      TypingDecides(secret, threshold, Press(secret, a, keys[0]), keys[1..]);
    }
  }

  /** Keystrokes that spell the rest of the secret, in either case. */
  predicate Spells(keys: seq<Keystroke>, rest: string)
  {
    |keys| == |rest| && forall i :: 0 <= i < |keys| ==> keys[i].Key? && Upper(keys[i].c) == rest[i]
  }

  /** Typing the rest of the packet without a slip completes it and raises no alert. */
  lemma {:induction false} TypingSecretWins(secret: string, threshold: int, a: Attempt, keys: seq<Keystroke>)
    requires IsPrefix(a.entered, secret) && a.alert < threshold
    requires Spells(keys, secret[|a.entered|..])
    ensures Typing(secret, threshold, a, keys) == Attempt(secret, a.alert)
    decreases |keys|
  {
    var n := |a.entered|;
    if n == |secret| {
      assert a.entered == secret;
    } else {
      PressKeepsPrefix(secret, a, keys[0]);
      var a' := Press(secret, a, keys[0]);
      assert a' == Attempt(a.entered + [secret[n]], a.alert);
      assert secret[n + 1..] == secret[n..][1..];
      TypingSecretWins(secret, threshold, a', keys[1..]);
    }
  }

  /** The input phase of one stage, keystroke by keystroke. */
  method InputPhase(secret: string, threshold: int, keys: seq<Keystroke>) returns (entered: string, alert: nat)
    ensures Attempt(entered, alert) == Typing(secret, threshold, Attempt([], 0), keys)
  {
    entered := "";
    alert := 0;
    var i := 0;
    while |entered| < |secret| && alert < threshold && i < |keys|
      invariant 0 <= i <= |keys|
      invariant Typing(secret, threshold, Attempt(entered, alert), keys[i..]) == Typing(secret, threshold, Attempt([], 0), keys)
    {
      var key := keys[i];
      assert keys[i..][1..] == keys[i + 1..];
      i := i + 1;
      if !key.Key? {
        continue;
      }
      var ch := Upper(key.c);
      if ch == secret[|entered|] {
        entered := entered + [ch];
      } else {
        alert := alert + 1;
      }
    }
  }

  /** The decoys of a stage: DecoyCount(stage) random packets of the stage's code length. */
  method MakeDecoys(stage: int) returns (decoys: seq<string>)
    requires stage >= 1
    ensures |decoys| == DecoyCount(stage)
    ensures forall i :: 0 <= i < |decoys| ==> |decoys[i]| == CodeLen(stage) && InAlphabet(decoys[i])
  {
    decoys := [];
    if stage >= 4 {
      var count := if stage == 4 then 2 else 3;
      while |decoys| < count
        invariant |decoys| <= count
        invariant forall i :: 0 <= i < |decoys| ==> |decoys[i]| == CodeLen(stage) && InAlphabet(decoys[i])
      {
        var d := GenerateRandomStream(CodeLen(stage));
        decoys := decoys + [d];
      }
    }
  }

  /** How a campaign ends: every stage cleared, detection, or a ValueError while drawing a stream. */
  datatype Outcome = Breached | Detected | StreamError

  /** The keystrokes typed during stage number `i + 1`. */
  function KeysFor(keys: seq<seq<Keystroke>>, i: nat): seq<Keystroke>
  {
    if i < |keys| then keys[i] else []
  }

  /** Stage number `i + 1`, with secret `secret`, was cleared. */
  predicate Cleared(st: Settings, keys: seq<seq<Keystroke>>, secret: string, i: nat)
  {
    Succeeded(secret, st.alertThreshold, Typing(secret, st.alertThreshold, Attempt([], 0), KeysFor(keys, i)))
  }

  /**
   * One stage of data_stream_decrypt: draw the decoys and the secret, scroll
   * the stream, run the input phase and apply the success test.  `None` is
   * the ValueError of a stream that cannot be drawn.
   */
  method PlayStage(st: Settings, stage: int, keys: seq<Keystroke>) returns (secret: string, cleared: Option<bool>)
    requires stage >= 1
    ensures |secret| == CodeLen(stage) && InAlphabet(secret)
    ensures cleared.None? <==> !StageFits(st, stage)
    ensures cleared.Some? ==> cleared.value == Succeeded(secret, st.alertThreshold, Typing(secret, st.alertThreshold, Attempt([], 0), keys))
  {
    var width := Width(st, stage);
    var rows := Rows(st, stage);
    var codeLen := CodeLen(stage);
    var decoys := MakeDecoys(stage);
    secret := GenerateRandomStream(codeLen);
    var stream := ScrollStream(secret, decoys, rows, width);
    if stream.None? {
      return secret, None;
    }
    var entered, alert := InputPhase(secret, st.alertThreshold, keys);
    var success := entered == secret && alert < st.alertThreshold;
    return secret, Some(success);
  }

  /** Every stage whose packet is in `secrets` was cleared. */
  predicate AllCleared(st: Settings, keys: seq<seq<Keystroke>>, secrets: seq<string>)
    decreases |secrets|
  {
    secrets == [] || (AllCleared(st, keys, secrets[..|secrets| - 1]) && Cleared(st, keys, secrets[|secrets| - 1], |secrets| - 1))
  }

  /** AllCleared, stage by stage. */
  lemma {:induction false} AllClearedEach(st: Settings, keys: seq<seq<Keystroke>>, secrets: seq<string>, i: nat)
    requires AllCleared(st, keys, secrets) && i < |secrets|
    ensures Cleared(st, keys, secrets[i], i)
    decreases |secrets|
  {
    if i < |secrets| - 1 {
      AllClearedEach(st, keys, secrets[..|secrets| - 1], i);
    }
  }

  /**
   * data_stream_decrypt without scoring or display.  `secrets` holds the
   * packet of every stage played.  The campaign stops at the first stage not
   * cleared; each cleared stage raises the throughput by one.
   */
  method Campaign(st: Settings, keys: seq<seq<Keystroke>>) returns (outcome: Outcome, throughput: int, secrets: seq<string>)
    ensures forall i :: 0 <= i < |secrets| ==> |secrets[i]| == CodeLen(i + 1) && InAlphabet(secrets[i])
    ensures outcome == Breached ==> |secrets| == (if st.maxStages < 0 then 0 else st.maxStages) && throughput == 1 + |secrets|
    ensures outcome == Breached ==> AllCleared(st, keys, secrets)
    ensures outcome != Breached ==> 1 <= |secrets| <= st.maxStages && throughput == |secrets|
    ensures outcome != Breached ==> AllCleared(st, keys, secrets[..|secrets| - 1])
    ensures outcome == Detected ==> !Cleared(st, keys, secrets[|secrets| - 1], |secrets| - 1)
    ensures outcome == StreamError ==> !StageFits(st, |secrets|)
    ensures st == Defaults ==> outcome != StreamError
  {
    throughput := 1;
    secrets := [];
    var stage := 1;
    while stage <= st.maxStages
      invariant 1 <= stage && |secrets| == stage - 1 && (st.maxStages >= 0 ==> stage <= st.maxStages + 1)
      invariant st.maxStages < 0 ==> stage == 1
      invariant throughput == stage
      invariant forall i :: 0 <= i < |secrets| ==> |secrets[i]| == CodeLen(i + 1) && InAlphabet(secrets[i])
      invariant AllCleared(st, keys, secrets)
    {
      var secret, cleared := PlayStage(st, stage, KeysFor(keys, stage - 1));
      ghost var played := secrets;
      secrets := secrets + [secret];
      assert secrets[..|secrets| - 1] == played;
      if cleared.None? {
        if st == Defaults {
          DefaultsFit(stage);
        }
        return StreamError, throughput, secrets;
      }
      if cleared.value {
        throughput := throughput + 1;
      } else {
        return Detected, throughput, secrets;
      }
      stage := stage + 1;
    }
    assert |secrets| == if st.maxStages < 0 then 0 else st.maxStages;
    outcome := Breached;
  }
}
