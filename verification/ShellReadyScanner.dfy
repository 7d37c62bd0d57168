/** The streaming shell-ready matcher of src/main/shell-ready-marker-scanner.ts and the terminal session of
    src/main/daemon/session.ts that feeds it: however the stream is cut into chunks, exactly its first marker is
    removed. */
module ShellReadyScanner {
  import opened Basics

  const ESC: CodeUnit := 27
  const BEL: CodeUnit := 7

  // "\x1b]777;orca-shell-ready"
  const MARKER_PREFIX: Text :=
    [ESC, 93, 55, 55, 55, 59, 111, 114, 99, 97, 45, 115, 104, 101, 108, 108, 45, 114, 101, 97, 100, 121]
  const PREFIX_LENGTH: nat := 22
  const MARKER_LENGTH: nat := 23

  // ------------------------------------------------------------ what the scanner is for

  predicate OccursAt(s: Text, i: int) {
    && 0 <= i && i + MARKER_LENGTH <= |s|
    && (forall p :: i <= p < i + PREFIX_LENGTH ==> s[p] == MARKER_PREFIX[p - i])
    && s[i + PREFIX_LENGTH] == BEL
  }

  ghost predicate HasMarker(s: Text) { exists i :: 0 <= i < |s| && OccursAt(s, i) }

  ghost predicate FirstMarkerAt(s: Text, i: int) {
    OccursAt(s, i) && forall j :: j < i ==> !OccursAt(s, j)
  }

  function WithoutMarkerAt(s: Text, i: int): Text
    requires OccursAt(s, i)
  {
    s[..i] + s[i + MARKER_LENGTH..]
  }

  /** The last `k` units of `s` are the first `k` of the marker. */
  predicate EndsInMarkerPrefix(s: Text, k: int) {
    && 0 <= k <= PREFIX_LENGTH && k <= |s|
    && forall p :: |s| - k <= p < |s| ==> s[p] == MARKER_PREFIX[p - (|s| - k)]
  }

  /** `k` is the length of the longest suffix of `s` that is a proper prefix of the marker. */
  ghost predicate Holds(s: Text, k: int) {
    EndsInMarkerPrefix(s, k) && forall j :: k < j <= PREFIX_LENGTH ==> !EndsInMarkerPrefix(s, j)
  }

  // ------------------------------------------------------------ one character at a time

  // The matcher restarts after one character: the escape occurs nowhere else in the marker.
  lemma EscapeOnlyAtStart()
    ensures forall t :: 1 <= t < PREFIX_LENGTH ==> MARKER_PREFIX[t] != ESC
  {
  }

  lemma PrefixGrows(seen: Text, ch: CodeUnit, j: int)
    ensures EndsInMarkerPrefix(seen + [ch], j) <==>
            j == 0 || (1 <= j <= PREFIX_LENGTH && EndsInMarkerPrefix(seen, j - 1) && ch == MARKER_PREFIX[j - 1])
  {
    var s := seen + [ch];
    if 1 <= j <= PREFIX_LENGTH && j <= |s| {
      assert s[|seen|] == ch;
      assert forall p :: 0 <= p < |seen| ==> s[p] == seen[p];
    }
  }

  /** Inside a held prefix, no shorter non-empty suffix starts a marker. */
  lemma NoInnerBorder(seen: Text, k: int, j: int)
    requires EndsInMarkerPrefix(seen, k) && 0 < j < k
    ensures !EndsInMarkerPrefix(seen, j)
  {
    EscapeOnlyAtStart();
    assert seen[|seen| - j] == MARKER_PREFIX[k - j];
  }

  lemma HeldAfterMatch(seen: Text, k: int, ch: CodeUnit)
    requires Holds(seen, k) && k < PREFIX_LENGTH && ch == MARKER_PREFIX[k]
    ensures Holds(seen + [ch], k + 1)
  {
    PrefixGrows(seen, ch, k + 1);
    forall j | j > k + 1 ensures !EndsInMarkerPrefix(seen + [ch], j) {
      PrefixGrows(seen, ch, j);
    }
  }

  lemma HeldAfterMismatch(seen: Text, k: int, ch: CodeUnit)
    requires Holds(seen, k) && (k < PREFIX_LENGTH ==> ch != MARKER_PREFIX[k])
    ensures Holds(seen + [ch], if ch == ESC then 1 else 0)
  {
    var k' := if ch == ESC then 1 else 0;
    assert EndsInMarkerPrefix(seen, 0);
    PrefixGrows(seen, ch, k');
    forall j | j > k' ensures !EndsInMarkerPrefix(seen + [ch], j) {
      PrefixGrows(seen, ch, j);
      if 0 < j - 1 < k {
        NoInnerBorder(seen, k, j - 1);
      }
    }
  }

  lemma MarkerSurvivesExtension(s: Text, more: Text, i: int)
    requires i + MARKER_LENGTH <= |s|
    ensures OccursAt(s + more, i) <==> OccursAt(s, i)
  {
    assert forall p :: 0 <= p < |s| ==> (s + more)[p] == s[p];
  }

  lemma MarkerEndsHere(seen: Text, k: int, ch: CodeUnit)
    requires Holds(seen, k) && !HasMarker(seen)
    ensures k == PREFIX_LENGTH && ch == BEL ==> FirstMarkerAt(seen + [ch], |seen| - PREFIX_LENGTH)
    ensures !(k == PREFIX_LENGTH && ch == BEL) ==> !HasMarker(seen + [ch])
  {
    var s := seen + [ch];
    forall i | i != |seen| - PREFIX_LENGTH ensures !OccursAt(s, i) {
      if 0 <= i && i + MARKER_LENGTH <= |seen| {
        MarkerSurvivesExtension(seen, [ch], i);
      }
    }
    var i := |seen| - PREFIX_LENGTH;
    if OccursAt(s, i) {
      assert forall p :: i <= p < |seen| ==> seen[p] == s[p];
      assert EndsInMarkerPrefix(seen, PREFIX_LENGTH);
    }
    assert k == PREFIX_LENGTH ==> forall p :: i <= p < |seen| ==> s[p] == seen[p];
  }

  /** The first marker begins at `i`; with what had been let go before, `output` is the stream without it, and `post`
      says whether anything comes after it. */
  ghost predicate IsTakenOut(i: int, seen: Text, held: nat, data: Text, output: Text, post: bool) {
    && held <= |seen| && FirstMarkerAt(seen + data, i)
    && seen[..|seen| - held] + output == WithoutMarkerAt(seen + data, i)
    && (post <==> i + MARKER_LENGTH < |seen + data|)
  }

  // --------------------------------------------------------------------- the scanner

  class ScanState {
    var matchPos: nat
    var heldBytes: Text

    /** The state after a stream `seen` without a marker: the longest possible start of a marker is held back. */
    ghost predicate Tracks(seen: Text)
      reads this
    {
      && Holds(seen, matchPos) && !HasMarker(seen)
      && heldBytes == seen[|seen| - matchPos..]
    }

    constructor ()
      ensures Tracks([])
      ensures matchPos == 0 && heldBytes == []
    {
      matchPos, heldBytes := 0, [];
    }

    method Drain() returns (held: Text)
      modifies this
      ensures held == old(heldBytes) && heldBytes == [] && matchPos == 0
    {
      held := heldBytes;
      heldBytes := [];
      matchPos := 0;
    }

    method Scan(data: Text, ghost seen: Text) returns (output: Text, matched: bool, postMarkerBytesObserved: bool)
      requires Tracks(seen)
      modifies this
      ensures matched <==> HasMarker(seen + data)
      ensures !matched ==> Tracks(seen + data) && output + heldBytes == old(heldBytes) + data
      ensures matched ==>
                exists i :: IsTakenOut(i, seen, old(matchPos), data, output, postMarkerBytesObserved)
      ensures matched ==> heldBytes == [] && matchPos == 0
      ensures !matched ==> !postMarkerBytesObserved
    {
      output := [];
      assert seen + data[..0] == seen;
      for i := 0 to |data|
        invariant Tracks(seen + data[..i])
        invariant output + heldBytes == old(heldBytes) + data[..i]
      {
        var ch := data[i];
        ghost var s := seen + data[..i];
        OneMoreUnit(seen, old(heldBytes), data, i, output, heldBytes);
        LastUnits(s, ch, matchPos);
        MarkerEndsHere(s, matchPos, ch);
        if matchPos < PREFIX_LENGTH && ch == MARKER_PREFIX[matchPos] {
          HeldAfterMatch(s, matchPos, ch);
          heldBytes := heldBytes + [ch];
          matchPos := matchPos + 1;
        } else if matchPos == PREFIX_LENGTH && ch == BEL {
          var remaining := data[i + 1..];
          ghost var at := |s| - PREFIX_LENGTH;
          MatchedOutput(seen, old(matchPos), data, i, output, at);
          heldBytes := [];
          matchPos := 0;
          return output + remaining, true, |remaining| > 0;
        } else {
          HeldAfterMismatch(s, matchPos, ch);
          output := output + heldBytes;
          heldBytes := [];
          matchPos := 0;
          if ch == ESC {
            heldBytes := [ch];
            matchPos := 1;
          } else {
            output := output + [ch];
          }
        }
      }
      assert data[..|data|] == data;
      matched, postMarkerBytesObserved := false, false;
    }
  }

  lemma LastUnits(s: Text, ch: CodeUnit, k: nat)
    requires k <= |s|
    ensures var t := s + [ch];
            t[|t| - (k + 1)..] == s[|s| - k..] + [ch] && t[|t| - 1..] == [ch] && t[|t| - 0..] == []
  {
  }

  lemma OneMoreUnit(seen: Text, before: Text, data: Text, i: nat, output: Text, held: Text)
    requires i < |data| && output + held == before + data[..i]
    ensures seen + data[..i] + [data[i]] == seen + data[..i + 1]
    ensures output + (held + [data[i]]) == before + data[..i + 1]
    ensures output + held + [data[i]] == output + held + [data[i]] + [] == before + data[..i + 1]
  {
    assert data[..i + 1] == data[..i] + [data[i]];
    Regroup(output, held, [data[i]]);
    Regroup(before, data[..i], [data[i]]);
    Regroup(seen, data[..i], [data[i]]);
  }

  lemma MatchedOutput(seen: Text, held: nat, data: Text, i: nat, output: Text, at: int)
    requires held <= |seen| && i < |data|
    requires FirstMarkerAt(seen + data[..i] + [data[i]], at) && at == |seen| + i - PREFIX_LENGTH
    requires output + (seen + data[..i])[at..] == seen[|seen| - held..] + data[..i]
    ensures HasMarker(seen + data)
    ensures IsTakenOut(at, seen, held, data, output + data[i + 1..], |data[i + 1..]| > 0)
  {
    var s, all := seen + data[..i] + [data[i]], seen + data;
    assert all == s + data[i + 1..];
    forall j | j <= at ensures OccursAt(all, j) <==> OccursAt(s, j) {
      if 0 <= j { MarkerSurvivesExtension(s, data[i + 1..], j); }
    }
    var emitted := seen[..|seen| - held];
    assert emitted + (output + (seen + data[..i])[at..]) == seen + data[..i];
    assert emitted + output == (seen + data[..i])[..at] == all[..at];
    assert data[i + 1..] == all[at + MARKER_LENGTH..];
  }

  // --------------------------------------------------------------------- the session

  datatype ShellState = Pending | Ready | TimedOut

  /** `text` is the stream `raw` with its first marker taken out. */
  ghost predicate LacksOnlyFirstMarker(text: Text, raw: Text) {
    exists i :: FirstMarkerAt(raw, i) && text == WithoutMarkerAt(raw, i)
  }

  lemma LacksOnlyFirstMarkerExtends(text: Text, raw: Text, data: Text)
    requires LacksOnlyFirstMarker(text, raw)
    ensures LacksOnlyFirstMarker(text + data, raw + data)
  {
    var i :| FirstMarkerAt(raw, i) && text == WithoutMarkerAt(raw, i);
    forall j | j <= i ensures OccursAt(raw + data, j) <==> OccursAt(raw, j) {
      if 0 <= j { MarkerSurvivesExtension(raw, data, j); }
    }
    assert (raw + data)[i + MARKER_LENGTH..] == raw[i + MARKER_LENGTH..] + data;
    assert text + data == WithoutMarkerAt(raw + data, i);
  }

  lemma MatchedText(before: Text, raw: Text, held: nat, data: Text, output: Text, post: bool)
    requires held <= |raw| && before + raw[|raw| - held..] == raw
    requires exists i :: IsTakenOut(i, raw, held, data, output, post)
    ensures LacksOnlyFirstMarker(before + output, raw + data)
  {
    assert (before + raw[|raw| - held..])[..|before|] == before;
    assert before == raw[..|raw| - held];
  }

  lemma UnmatchedText(before: Text, held: Text, data: Text, output: Text, held': Text)
    requires output + held' == held + data
    ensures before + output + held' == before + held + data
  {
    Regroup(before, output, held');
    Regroup(before, held, data);
  }

  class Session {
    var shellState: ShellState
    var scanState: ScanState
    var emitted: Text          // everything handed to the emulator and the clients
    ghost var raw: Text        // everything the shell wrote, however it was cut into chunks

    ghost predicate Valid()
      reads this, scanState
    {
      match shellState
      case Pending => scanState.Tracks(raw) && emitted + scanState.heldBytes == raw
      case Ready => LacksOnlyFirstMarker(emitted, raw)
      case TimedOut => emitted == raw
    }

    constructor ()
      ensures Valid() && raw == [] && emitted == [] && shellState == Pending && fresh(scanState)
    {
      shellState, emitted, raw := Pending, [], [];
      scanState := new ScanState();
    }

    method HandleSubprocessData(data: Text)
      requires Valid()
      modifies this, scanState
      ensures Valid() && raw == old(raw) + data && scanState == old(scanState)
      ensures shellState == if old(shellState) == Pending && HasMarker(raw) then Ready else old(shellState)
      ensures old(emitted) <= emitted
    {
      if shellState == Pending {
        ScanChunk(data);
      } else {
        if shellState == Ready {
          LacksOnlyFirstMarkerExtends(emitted, raw, data);
        }
        raw := raw + data;
        emitted := emitted + data;
      }
    }

    // The branch of handleSubprocessData that still looks for the marker.
    method ScanChunk(data: Text)
      requires Valid() && shellState == Pending
      modifies this, scanState
      ensures Valid() && raw == old(raw) + data && scanState == old(scanState)
      ensures shellState == if HasMarker(raw) then Ready else Pending
      ensures old(emitted) <= emitted
    {
      ghost var (before, held) := (scanState.heldBytes, scanState.matchPos);
      var output, matched, post := scanState.Scan(data, raw);
      if matched {
        MatchedText(emitted, raw, held, data, output, post);
        shellState := Ready;
      } else {
        UnmatchedText(emitted, before, data, output, scanState.heldBytes);
      }
      raw := raw + data;
      emitted := emitted + output;
    }

    // The readiness timer: the held prefix is released before the state changes.
    method OnShellReadyTimeout()
      requires Valid()
      modifies this, scanState
      ensures Valid() && raw == old(raw) && scanState == old(scanState)
      ensures old(shellState) == Pending ==> shellState == TimedOut && emitted == raw
      ensures old(shellState) != Pending ==> shellState == old(shellState) && emitted == old(emitted)
    {
      if shellState != Pending { return; }
      shellState := TimedOut;
      var held := scanState.Drain();
      emitted := emitted + held;
    }
  }

  lemma MarkerText()
    ensures var text := "]777;orca-shell-ready";
            && |MARKER_PREFIX| == |text| + 1 == PREFIX_LENGTH && MARKER_PREFIX[0] == 0x1B
            && (forall i :: 0 <= i < |text| ==> MARKER_PREFIX[i + 1] == text[i] as int)
            && BEL == 0x07 && MARKER_LENGTH == PREFIX_LENGTH + 1
  {
  }
}
