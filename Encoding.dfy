/**
 * Choosing the text encoding of one log file (Script_Multi_Warn_imports.py,
 * lines 10-60): an optional guess from the charset detector, then the fixed
 * fallback list, then a permissive UTF-8 read that cannot fail.
 *
 * The detector's report and "opening the file with this codec succeeds" are
 * oracles given as inputs; the model keeps the bookkeeping of the names tried.
 */
module Encoding {
  import opened Wrappers
  import opened Text
  import opened Seqs

  const FallbackEncodings: seq<string> := ["utf-8", "utf-8-sig", "cp1252", "iso-8859-1"]

  /** The name reported when every candidate failed and the file is read with
      `errors="replace"`. */
  const ReplaceMarker: string := "utf-8 (replace)"

  /** The least detector confidence at which its guess is used. */
  const MinConfidence: real := 0.5

  /** What one call of the detector did: raised, or reported an encoding (maybe
      none) with a confidence (0 when the report has none). */
  datatype DetectorOutcome = Raised | Reported(encoding: Option<string>, confidence: real)

  /** `detect_encoding_bytes`: the detector's guess, kept only when the
      detector is installed, did not raise, named an encoding, and was
      confident enough. */
  function DetectEncoding(haveDetector: bool, outcome: DetectorOutcome): (r: Option<string>)
    ensures r.Some? <==> haveDetector && outcome.Reported? && outcome.encoding.Some?
                         && outcome.encoding.value != "" && outcome.confidence >= MinConfidence
    ensures r.Some? ==> r == outcome.encoding
  {
    if !haveDetector then None
    else match outcome
      case Raised => None
      case Reported(enc, conf) =>
        if enc.Some? && enc.value != "" && conf >= MinConfidence then enc else None
  }

  function Detected(guess: Option<string>): seq<string>
  {
    if guess.Some? then [guess.value] else []
  }

  /** The names of `names` in order, skipping every name already in `seen` or
      already kept. */
  function Unseen(seen: seq<string>, names: seq<string>): (r: seq<string>)
    ensures forall x :: x in r ==> x in names && x !in seen
    ensures forall x :: x in names && x !in seen ==> x in r
    ensures |r| <= |names|
    decreases |names|
  {
    if names == [] then []
    else if names[0] in seen then Unseen(seen, names[1..])
    else [names[0]] + Unseen(seen + [names[0]], names[1..])
  }

  /** `Unseen` keeps each name once. */
  lemma {:induction false} UnseenDistinct(seen: seq<string>, names: seq<string>)
    ensures NoDuplicates(Unseen(seen, names))
    decreases |names|
  {
    if names != [] {
      if names[0] in seen {
        UnseenDistinct(seen, names[1..]);
      } else {
        var rest := Unseen(seen + [names[0]], names[1..]);
        UnseenDistinct(seen + [names[0]], names[1..]);
        assert names[0] in seen + [names[0]];
        assert names[0] !in rest;
        var r := [names[0]] + rest;
        forall i, j | 0 <= i < j < |r| ensures r[i] != r[j] {
          if i == 0 { assert r[j] == rest[j - 1] && rest[j - 1] in rest; }
          else { assert r[i] == rest[i - 1] && r[j] == rest[j - 1]; }
        }
      }
    }
  }

  /** Unfolds `Unseen` once on a name not seen yet. */
  lemma UnseenCons(seen: seq<string>, a: string, rest: seq<string>)
    requires a !in seen
    ensures Unseen(seen, [a] + rest) == [a] + Unseen(seen + [a], rest)
  {
    assert ([a] + rest)[1..] == rest;
  }

  /** Names that are all new and distinct are kept as they are. */
  lemma {:induction false} UnseenKeepsFresh(seen: seq<string>, names: seq<string>)
    requires NoDuplicates(names)
    requires forall x :: x in names ==> x !in seen
    ensures Unseen(seen, names) == names
    decreases |names|
  {
    if names != [] {
      var a, rest := names[0], names[1..];
      assert names == [a] + rest;
      UnseenCons(seen, a, rest);
      forall x | x in rest ensures x !in seen + [a] {
        var i :| 0 <= i < |rest| && rest[i] == x;
        assert names[i + 1] == x && x in names;
      }
      assert forall i :: 0 <= i < |rest| ==> rest[i] == names[i + 1];
      UnseenKeepsFresh(seen + [a], rest);
    }
  }

  /** The encodings to try, in order: the guess, then the fallbacks, each name once. */
  function Candidates(guess: Option<string>): (r: seq<string>)
    ensures |r| <= |FallbackEncodings| + 1
    ensures forall x :: x in r ==> x in Detected(guess) + FallbackEncodings
    ensures guess.Some? ==> |r| > 0 && r[0] == guess.value
  {
    Unseen([], Detected(guess) + FallbackEncodings)
  }

  /** The index of the first name of `c` that opens, or `|c|` when none does. */
  function FirstOpening(c: seq<string>, opens: string -> bool): (k: nat)
    ensures k <= |c|
    ensures forall j :: 0 <= j < k ==> !opens(c[j])
    ensures k < |c| ==> opens(c[k])
  {
    if c == [] || opens(c[0]) then 0 else FirstOpening(c[1..], opens) + 1
  }

  /** The encoding used for a file and every name tried, in order. */
  datatype Resolution = Resolution(encoding: string, tried: seq<string>)

  /** What `open_with_fallback` settles on: the first candidate that opens, or
      the replacement marker after all of them failed. */
  function Resolve(guess: Option<string>, opens: string -> bool): (r: Resolution)
    ensures |r.tried| > 0 && r.tried[|r.tried| - 1] == r.encoding
    ensures r.tried[..|r.tried| - 1] <= Candidates(guess)
    ensures forall j :: 0 <= j < |r.tried| - 1 ==> !opens(r.tried[j])
    ensures opens(r.encoding) || (r.encoding == ReplaceMarker && r.tried[..|r.tried| - 1] == Candidates(guess))
    ensures r.tried <= Candidates(guess) + [ReplaceMarker]
  {
    var c := Candidates(guess);
    var k := FirstOpening(c, opens);
    if k < |c| then
      TakeTake(c, k + 1, k);
      PrefixOfAppend(c, [ReplaceMarker]);
      TakeTake(c + [ReplaceMarker], |c|, k + 1);
      Resolution(c[k], c[..k + 1])
    else
      PrefixOfAppend(c, [ReplaceMarker]);
      Resolution(ReplaceMarker, c + [ReplaceMarker])
  }

  /** The marker is not a name the detector or the fallback list supplies. */
  lemma MarkerNotCandidate(guess: Option<string>)
    requires guess != Some(ReplaceMarker)
    ensures ReplaceMarker !in Candidates(guess)
  {
    assert ReplaceMarker !in Detected(guess) + FallbackEncodings;
  }

  /** The guess is tried first, and at most the guess, the four fallbacks and
      the marker are tried. */
  lemma ResolveTriesGuessFirst(guess: Option<string>, opens: string -> bool)
    ensures guess.Some? ==> Resolve(guess, opens).tried[0] == guess.value
    ensures |Resolve(guess, opens).tried| <= |FallbackEncodings| + 2
  {
    var c := Candidates(guess);
    var r := Resolve(guess, opens);
    if guess.Some? && |r.tried| == 1 {
      assert r.tried == c[..1];
    }
  }

  /** No name is tried twice, unless the detector itself reported the marker. */
  lemma ResolveNoDuplicates(guess: Option<string>, opens: string -> bool)
    requires guess != Some(ReplaceMarker)
    ensures NoDuplicates(Resolve(guess, opens).tried)
  {
    var c := Candidates(guess);
    UnseenDistinct([], Detected(guess) + FallbackEncodings);
    var k := FirstOpening(c, opens);
    if k == |c| {
      MarkerNotCandidate(guess);
      NoDuplicatesSnoc(c, ReplaceMarker);
    } else {
      NoDuplicatesPrefix(c, k + 1);
    }
  }

  /** The permissive read is used exactly when no candidate opens. That read
      sits outside every `try`; since `opens` is false only for unknown codec
      names and OS errors, and the last resort's codec is known, the model
      takes it to succeed once reached. */
  lemma ResolveFallsThrough(guess: Option<string>, opens: string -> bool)
    requires guess != Some(ReplaceMarker)
    ensures (Resolve(guess, opens).encoding == ReplaceMarker)
        <==> (forall x :: x in Candidates(guess) ==> !opens(x))
  {
    var c := Candidates(guess);
    var k := FirstOpening(c, opens);
    MarkerNotCandidate(guess);
    if k < |c| {
      assert c[k] in c && opens(c[k]);
    } else {
      forall x | x in c ensures !opens(x) {
        var i :| 0 <= i < |c| && c[i] == x;
      }
    }
  }

  /** `open_with_fallback`: tries the detector's guess, then each fallback not
      tried yet, and returns the first that opens with the names tried. */
  method OpenWithFallback(haveDetector: bool, outcome: DetectorOutcome, opens: string -> bool)
    returns (encoding: string, tried: seq<string>)
    ensures Resolution(encoding, tried) == Resolve(DetectEncoding(haveDetector, outcome), opens)
  {
    tried := [];
    var enc := DetectEncoding(haveDetector, outcome);
    ghost var c := Candidates(enc);
    CandidatesStart(enc);

    if enc.Some? {
      tried := tried + [enc.value];
      if opens(enc.value) {
        OpensAt(c, opens, [], enc.value);
        return enc.value, tried;
      }
    }
    assert tried == Detected(enc);

    for i := 0 to |FallbackEncodings|
      invariant tried + Unseen(tried, FallbackEncodings[i..]) == c
      invariant forall x :: x in tried ==> !opens(x)
    {
      var e := FallbackEncodings[i];
      FallbackStep(tried, e, FallbackEncodings[i..], c);
      if e in tried {
        continue;
      }
      if opens(e) {
        OpensAt(c, opens, tried, e);
        return e, tried + [e];
      }
      tried := tried + [e];
    }
    assert FallbackEncodings[|FallbackEncodings|..] == [];
    assert tried + [] == tried;
    AllFail(c, opens);
    return ReplaceMarker, tried + [ReplaceMarker];
  }

  /** Before the fallback loop: the guess (if any) is tried, the rest remain. */
  lemma CandidatesStart(guess: Option<string>)
    ensures Detected(guess) + Unseen(Detected(guess), FallbackEncodings[0..]) == Candidates(guess)
    ensures guess.Some? ==> Candidates(guess)[..1] == [] + [guess.value]
  {
    assert FallbackEncodings[0..] == FallbackEncodings;
    if guess.Some? {
      UnseenCons([], guess.value, FallbackEncodings);
      assert [] + [guess.value] == [guess.value];
    } else {
      assert Detected(guess) + FallbackEncodings == FallbackEncodings;
    }
  }

  /** One turn of the fallback loop: a name already tried is skipped, a new
      one is the next candidate. */
  lemma FallbackStep(tried: seq<string>, e: string, names: seq<string>, c: seq<string>)
    requires |names| > 0 && names[0] == e
    requires tried + Unseen(tried, names) == c
    ensures e in tried ==> tried + Unseen(tried, names[1..]) == c
    ensures e !in tried ==> (tried + [e]) + Unseen(tried + [e], names[1..]) == c
                            && |c| > |tried| && c[..|tried| + 1] == tried + [e]
  {
    var rest := names[1..];
    HeadTail(names);
    if e in tried {
      UnseenSkip(tried, e, rest);
    } else {
      FallbackNext(tried, e, rest, c);
    }
  }

  /** A name not tried yet is the next candidate, and the rest follow it. */
  lemma FallbackNext(tried: seq<string>, e: string, rest: seq<string>, c: seq<string>)
    requires e !in tried
    requires tried + Unseen(tried, [e] + rest) == c
    ensures (tried + [e]) + Unseen(tried + [e], rest) == c
    ensures |c| > |tried| && c[..|tried| + 1] == tried + [e]
  {
    UnseenCons(tried, e, rest);
    var later := Unseen(tried + [e], rest);
    AppendAssoc(tried, [e], later);
    PrefixOfAppend(tried + [e], later);
  }

  /** Unfolds `Unseen` once on a name seen already. */
  lemma UnseenSkip(seen: seq<string>, a: string, rest: seq<string>)
    requires a in seen
    ensures Unseen(seen, [a] + rest) == Unseen(seen, rest)
  {
    assert ([a] + rest)[1..] == rest;
  }

  /** When every name before `e` failed and `e` opens, `e` is the first to open. */
  lemma OpensAt(c: seq<string>, opens: string -> bool, failed: seq<string>, e: string)
    requires |c| > |failed| && c[..|failed| + 1] == failed + [e]
    requires forall x :: x in failed ==> !opens(x)
    requires opens(e)
    ensures FirstOpening(c, opens) == |failed| && c[..|failed| + 1] == failed + [e]
  {
    var n, prefix := |failed|, c[..|failed| + 1];
    forall j | 0 <= j < n ensures !opens(c[j]) {
      assert c[j] == prefix[j] == failed[j];
      assert failed[j] in failed;
    }
    assert c[n] == prefix[n] == e;
  }

  /** When no candidate opens, none is the first to open. */
  lemma AllFail(c: seq<string>, opens: string -> bool)
    requires forall x :: x in c ==> !opens(x)
    ensures FirstOpening(c, opens) == |c|
  {
    assert forall j :: 0 <= j < |c| ==> c[j] in c;
  }

  /** The four fallback names are distinct (their lengths already differ). */
  lemma FallbacksDistinct()
    ensures NoDuplicates(FallbackEncodings)
  {
    var lengths := seq(|FallbackEncodings|, i requires 0 <= i < |FallbackEncodings| => |FallbackEncodings[i]|);
    assert lengths == [5, 9, 6, 10];
  }

  /** With no guess, the fallbacks are tried in their listed order. */
  lemma CandidatesWithoutGuess()
    ensures Candidates(None) == FallbackEncodings
  {
    assert Detected(None) + FallbackEncodings == FallbackEncodings;
    FallbacksDistinct();
    UnseenKeepsFresh([], FallbackEncodings);
  }

  /** A guess outside the fallback list comes first, then all four fallbacks. */
  lemma CandidatesWithNewGuess(g: string)
    requires g !in FallbackEncodings
    ensures Candidates(Some(g)) == [g] + FallbackEncodings
  {
    CandidatesWithGuess(g);
    FallbacksDistinct();
    UnseenKeepsFresh([g], FallbackEncodings);
  }

  /** The names of `names`, in order, that are not in `seen`. */
  function Without(seen: seq<string>, names: seq<string>): seq<string>
  {
    if names == [] then []
    else if names[0] in seen then Without(seen, names[1..])
    else [names[0]] + Without(seen, names[1..])
  }

  /** Seeing a name that is not listed changes nothing. */
  lemma {:induction false} WithoutIgnores(seen: seq<string>, a: string, names: seq<string>)
    requires a !in names
    ensures Without(seen + [a], names) == Without(seen, names)
    decreases |names|
  {
    if names != [] {
      assert names[0] != a && names[1..] <= names[1..];
      assert forall x :: x in names[1..] ==> x in names;
      WithoutIgnores(seen, a, names[1..]);
    }
  }

  /** On distinct names, skipping the names already tried is plain filtering. */
  lemma {:induction false} UnseenOfDistinct(seen: seq<string>, names: seq<string>)
    requires NoDuplicates(names)
    ensures Unseen(seen, names) == Without(seen, names)
    decreases |names|
  {
    if names != [] {
      var a, rest := names[0], names[1..];
      assert forall i :: 0 <= i < |rest| ==> rest[i] == names[i + 1];
      assert a !in rest;
      if a in seen {
        UnseenOfDistinct(seen, rest);
      } else {
        UnseenOfDistinct(seen + [a], rest);
        WithoutIgnores(seen, a, rest);
      }
    }
  }

  /** A guess that is itself a fallback is tried once, first, and the other
      fallbacks follow in their listed order. */
  lemma CandidatesWithFallbackGuess(g: string)
    requires g in FallbackEncodings
    ensures Candidates(Some(g)) == [g] + Without([g], FallbackEncodings)
  {
    CandidatesWithGuess(g);
    FallbacksDistinct();
    UnseenOfDistinct([g], FallbackEncodings);
  }

  /** A `cp1252` guess moves `cp1252` to the front. */
  lemma CandidatesWithCp1252Guess()
    ensures Candidates(Some("cp1252")) == ["cp1252", "utf-8", "utf-8-sig", "iso-8859-1"]
  {
    CandidatesWithFallbackGuess("cp1252");
    assert Without(["cp1252"], ["iso-8859-1"]) == ["iso-8859-1"] + Without(["cp1252"], []);
    assert Without(["cp1252"], ["cp1252", "iso-8859-1"]) == ["iso-8859-1"];
  }

  /** The guess goes first; the fallbacks follow, less the guess. */
  lemma CandidatesWithGuess(g: string)
    ensures Candidates(Some(g)) == [g] + Unseen([g], FallbackEncodings)
  {
    assert Detected(Some(g)) + FallbackEncodings == [g] + FallbackEncodings;
    UnseenCons([], g, FallbackEncodings);
    assert [] + [g] == [g];
  }

  /** Opening a file with a known codec does not decode it, so for a readable
      file every fallback opens alike. With no guess such a file is opened as
      `utf-8`, whatever its bytes are; a Windows-1252 file is not told apart. */
  lemma UndetectedFileOpensAsUtf8(opens: string -> bool)
    requires forall e :: e in FallbackEncodings ==> opens(e)
    ensures Resolve(None, opens) == Resolution("utf-8", ["utf-8"])
  {
    CandidatesWithoutGuess();
    var c := Candidates(None);
    assert opens(c[0]);
    assert FirstOpening(c, opens) == 0;
  }

  /** An accepted guess whose codec opens the file is used at once. */
  lemma GuessThatOpensIsUsed(g: string, opens: string -> bool)
    requires opens(g)
    ensures Resolve(Some(g), opens) == Resolution(g, [g])
  {
    var c := Candidates(Some(g));
    assert c[0] == g;
    assert FirstOpening(c, opens) == 0;
  }
}
