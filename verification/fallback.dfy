/**
  Choosing the raw caption of one image: the loop over `model_order` with fail-phrase
  fallback in `Captionr.process_img`. What each backend produces for the image is an input:
  `captions` has a key for every backend whose handle is attached, and its value is `None`
  when that backend raised.
 */
module Fallback {
  import opened Wrappers
  import opened PyStr
  import opened CaptionrConfig

  /** The caption holds one of the comma-separated fail phrases as a substring. */
  predicate HasFailPhrase(caption: string, failPhrases: string) {
    exists f :: f in Split(failPhrases, ',') && Contains(caption, f)
  }

  /**
    What one entry of `model_order` yields: the caption of a backend that the entry names,
    whose pass flag is set and whose handle is attached, when it did not raise.
   */
  function Attempt(cfg: Config, captions: map<Backend, Option<string>>, m: string): Option<string> {
    match BackendNamed(m)
    case None => None
    case Some(b) => if b in cfg.passes && b in captions then captions[b] else None
  }

  /**
    The fallback walk over the remaining entries of `model_order`, holding the caption
    obtained so far; the flag says whether a caption free of fail phrases was found.
   */
  function FallbackFrom(cfg: Config, captions: map<Backend, Option<string>>, names: seq<string>, held: string): (r: (string, bool))
    ensures r.1 ==> !HasFailPhrase(r.0, cfg.failPhrases)
    ensures !r.1 ==> r.0 == held || HasFailPhrase(r.0, cfg.failPhrases)
    decreases |names|
  {
    if names == [] then (held, false)
    else
      match Attempt(cfg, captions, names[0])
      case None => FallbackFrom(cfg, captions, names[1..], held)
      case Some(c) =>
        if HasFailPhrase(c, cfg.failPhrases) then FallbackFrom(cfg, captions, names[1..], c)
        else (c, true)
  }

  /** The walk is skipped when the policy is `flavor` and there is an existing caption. */
  function RawCaption(cfg: Config, captions: map<Backend, Option<string>>, existing: string): (r: (string, bool))
    ensures r.1 ==> !HasFailPhrase(r.0, cfg.failPhrases)
    ensures !r.1 ==> r.0 == existing || HasFailPhrase(r.0, cfg.failPhrases)
  {
    if existing == "" || cfg.existing != Flavor then
      FallbackFrom(cfg, captions, Split(cfg.modelOrder, ','), existing)
    else
      (existing, false)
  }

  /** The loop of the source: reassigns the caption on every backend that answers, stops at the first accepted one. */
  method ChooseCaption(cfg: Config, captions: map<Backend, Option<string>>, existing: string)
    returns (newCaption: string, gotCap: bool)
    ensures (newCaption, gotCap) == RawCaption(cfg, captions, existing)
  {
    newCaption := existing;
    gotCap := false;
    if existing == "" || cfg.existing != Flavor {
      var order := Split(cfg.modelOrder, ',');
      for i := 0 to |order|
        invariant !gotCap
        invariant FallbackFrom(cfg, captions, order[i..], newCaption) == FallbackFrom(cfg, captions, order, existing)
      {
        assert order[i..][1..] == order[i + 1..];
        var b := BackendNamed(order[i]);
        if b.Some? && b.value in cfg.passes && b.value in captions && !gotCap {
          var outcome := captions[b.value];
          if outcome.None? {
            continue;  // the backend raised: logged, next entry
          }
          newCaption := outcome.value;
          if !HasFailPhrase(newCaption, cfg.failPhrases) {
            gotCap := true;
            break;
          }
        }
      }
    }
  }

  /** The captions the walk obtains, in `model_order` order: one per enabled backend that did not raise. */
  function Attempts(cfg: Config, captions: map<Backend, Option<string>>, names: seq<string>): seq<string>
    decreases |names|
  {
    if names == [] then []
    else
      (match Attempt(cfg, captions, names[0]) case Some(c) => [c] case None => [])
      + Attempts(cfg, captions, names[1..])
  }

  ghost predicate AllRejected(outs: seq<string>, failPhrases: string) {
    forall j :: 0 <= j < |outs| ==> HasFailPhrase(outs[j], failPhrases)
  }

  /**
    The walk's result `r`, stated on the list `outs` of captions it obtained: the first
    caption without a fail phrase when there is one; otherwise the last caption obtained,
    or the held one when no backend answered.
   */
  ghost predicate PicksFirstAccepted(r: (string, bool), outs: seq<string>, held: string, failPhrases: string) {
    && (r.1 ==> exists i :: 0 <= i < |outs| && r.0 == outs[i] && !HasFailPhrase(outs[i], failPhrases)
                            && AllRejected(outs[..i], failPhrases))
    && (!r.1 ==> AllRejected(outs, failPhrases) && r.0 == (if outs == [] then held else outs[|outs| - 1]))
  }

  lemma PicksFirstAcceptedAfterRejected(r: (string, bool), c: string, rest: seq<string>, held: string, failPhrases: string)
    requires HasFailPhrase(c, failPhrases)
    requires PicksFirstAccepted(r, rest, c, failPhrases)
    ensures PicksFirstAccepted(r, [c] + rest, held, failPhrases)
  {
    var outs := [c] + rest;
    if r.1 {
      var i :| 0 <= i < |rest| && r.0 == rest[i] && !HasFailPhrase(rest[i], failPhrases)
               && AllRejected(rest[..i], failPhrases);
      assert outs[i + 1] == rest[i];
      assert outs[..i + 1] == [c] + rest[..i];
    } else {
      assert rest != [] ==> outs[|outs| - 1] == rest[|rest| - 1];
    }
  }

  /** The walk takes the first accepted caption, else the last obtained one, else keeps what it held. */
  lemma {:induction false} FallbackPicksFirstAccepted(cfg: Config, captions: map<Backend, Option<string>>, names: seq<string>, held: string)
    ensures PicksFirstAccepted(FallbackFrom(cfg, captions, names, held), Attempts(cfg, captions, names), held, cfg.failPhrases)
    decreases |names|
  {
    if names != [] {
      var rest := Attempts(cfg, captions, names[1..]);
      match Attempt(cfg, captions, names[0])
      case None =>
        assert Attempts(cfg, captions, names) == rest;
        FallbackPicksFirstAccepted(cfg, captions, names[1..], held);
      case Some(c) =>
        var outs := [c] + rest;
        assert Attempts(cfg, captions, names) == outs;
        if HasFailPhrase(c, cfg.failPhrases) {
          FallbackPicksFirstAccepted(cfg, captions, names[1..], c);
          PicksFirstAcceptedAfterRejected(FallbackFrom(cfg, captions, names[1..], c), c, rest, held, cfg.failPhrases);
        } else {
          assert outs[..0] == [];
        }
    }
  }

  /** With no enabled backend answering (none enabled, or all raised), the caption stays the existing one. */
  lemma NoAnswerKeepsExisting(cfg: Config, captions: map<Backend, Option<string>>, existing: string)
    requires Attempts(cfg, captions, Split(cfg.modelOrder, ',')) == []
    ensures RawCaption(cfg, captions, existing) == (existing, false)
  {
    FallbackPicksFirstAccepted(cfg, captions, Split(cfg.modelOrder, ','), existing);
  }

  /**
    An empty fail phrase (an empty `--fail_phrases`, or one with a doubled or trailing comma)
    is a substring of every caption, so no backend's caption is ever accepted.
   */
  lemma EmptyFailPhraseRejectsAll(cfg: Config, captions: map<Backend, Option<string>>, existing: string)
    requires "" in Split(cfg.failPhrases, ',')
    ensures !RawCaption(cfg, captions, existing).1
  {
    var names := Split(cfg.modelOrder, ',');
    FallbackPicksFirstAccepted(cfg, captions, names, existing);
  }
}
