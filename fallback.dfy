/** The "Analyze with AI" button: try each candidate model in order, stop at
    the first answer, skip a candidate whose error mentions 404 silently, skip
    one whose error mentions 429 with a warning, and stop at any other error.
    The generator is an oracle: one reply per candidate, in list order. */
module Fallback {
  import opened Text

  /** What one call of the generator gives: the response text, or the text of
      the exception it raised. */
  datatype Reply = Ok(text: string) | Err(msg: string)

  datatype ErrorClass = NotFound | RateLimited | Other

  /** How the run ends: which candidate answered, which one failed fatally, or
      none answered and none failed fatally. */
  datatype Outcome =
    | Answered(model: string, text: string)
    | Aborted(model: string, msg: string)
    | Exhausted

  /** What the loop shows: a warning for a busy candidate, an error for an
      unexpected failure, and the closing "all unavailable" error. */
  datatype Notice =
    | Busy(model: string)
    | Failure(model: string, msg: string)
    | AllUnavailable

  /** The candidates, in order of preference. */
  const ModelsToTry: seq<string> := ["gemini-1.5-flash-latest", "gemini-2.0-flash", "gemini-1.5-flash"]

  const BusySuffix: string := " is busy (Quota Hit). Trying next..."

  /** The text each notice is shown with. The candidate reads back from a
      warning. An error report has the candidate right after its 22-character
      prefix, then ": ", and ends with the exception's own text. */
  function Render(n: Notice): (r: string)
    ensures n.Busy? ==> |r| == 6 + |n.model| + |BusySuffix|
                        && r[..6] == "Model " && r[6..|r| - |BusySuffix|] == n.model
                        && r[|r| - |BusySuffix|..] == BusySuffix
    ensures n.Failure? ==> |r| == 24 + |n.model| + |n.msg|
                           && r[..22] == "Unexpected error with " && r[22..22 + |n.model|] == n.model
                           && r[22 + |n.model|..24 + |n.model|] == ": " && r[|r| - |n.msg|..] == n.msg
    ensures n.AllUnavailable? ==> |r| > 0 && r[0] == '❌'
  {
    match n
    case Busy(model) => "Model " + model + BusySuffix
    case Failure(model, msg) => "Unexpected error with " + model + ": " + msg
    // the symbol on its own, so that proofs can read the first character
    case AllUnavailable => "❌" + " All AI models are currently unavailable. Please wait 60 seconds and try again."
  }

  /** A warning names its candidate unambiguously: the model reads back from
      the text. */
  lemma BusyNamesModel(a: string, b: string)
    ensures Render(Busy(a)) == Render(Busy(b)) ==> a == b
  {
  }

  /** For the app's own candidates an error report reads back: its text
      determines both the candidate and the exception text. (For arbitrary
      names it does not: "a: b" with "c" prints as "a" with "b: c".) */
  lemma {:induction false} FailureNamesModel(a: string, b: string, m: string, n: string)
    requires a in ModelsToTry && b in ModelsToTry
    ensures Render(Failure(a, m)) == Render(Failure(b, n)) ==> a == b && m == n
  {
    var ra, rb := Render(Failure(a, m)), Render(Failure(b, n));
    if |a| != |b| {
      // one is the 23-character candidate, which has '-' where the other's ": " starts
      if |a| > |b| {
        assert ra[38] == a[16] == '-' && rb[38] == ": "[0];
      } else {
        assert rb[38] == b[16] == '-' && ra[38] == ": "[0];
      }
    } else if ra == rb {
      assert a == ra[22..22 + |a|] == b;
      assert m == ra[|ra| - |m|..] == n;
    }
  }

  /** The closing message cannot be mistaken for the report of a failure. */
  lemma UnavailableIsDistinct(model: string, msg: string)
    ensures Render(AllUnavailable) != Render(Failure(model, msg))
  {
  }

  /** How the loop reads an error: it looks for "404" first, then for "429",
      anywhere in the text. */
  function Classify(msg: string): (c: ErrorClass)
    ensures c == NotFound <==> Contains(msg, "404")
    ensures c == RateLimited <==> !Contains(msg, "404") && Contains(msg, "429")
    ensures c != Other ==> |msg| >= 3
  {
    if Contains(msg, "404") then NotFound
    else if Contains(msg, "429") then RateLimited
    else Other
  }

  /** A text that embeds "404" anywhere is a "not found", whatever else it
      says; in particular the test for "404" wins over a "429" that comes
      earlier in the text. */
  lemma {:induction false} EmbeddedNotFound(before: string, after: string)
    ensures Classify(before + "404" + after) == NotFound
  {
    assert OccursAt("404", "404", 0);
    ContainsExtended("404", "404", before, after);
  }

  lemma {:induction false} NotFoundWinsOverRateLimited(before: string, middle: string, after: string)
    ensures Classify(before + "429" + middle + "404" + after) == NotFound
  {
    EmbeddedNotFound(before + "429" + middle, after);
    assert before + "429" + middle + "404" + after == (before + "429" + middle) + "404" + after;
  }

  /** A text that embeds "429" and nowhere "404" is a rate limit. */
  lemma {:induction false} EmbeddedRateLimited(before: string, after: string)
    requires !Contains(before + "429" + after, "404")
    ensures Classify(before + "429" + after) == RateLimited
  {
    assert OccursAt("429", "429", 0);
    ContainsExtended("429", "429", before, after);
  }

  /** A text without the digit 4 names neither code, so it is a fatal error. */
  lemma {:induction false} NoFourIsOther(msg: string)
    requires forall j :: 0 <= j < |msg| ==> msg[j] != '4'
    ensures Classify(msg) == Other
  {
    forall i | 0 <= i <= |msg| - 3 ensures !OccursAt(msg, "404", i) && !OccursAt(msg, "429", i) {
      assert msg[i..i + 3][0] == msg[i];
    }
  }

  /** A "429" with no other 4 around it cannot hide a "404". */
  lemma {:induction false} LoneRateLimited(before: string, after: string)
    requires forall j :: 0 <= j < |before| ==> before[j] != '4'
    requires forall j :: 0 <= j < |after| ==> after[j] != '4'
    ensures Classify(before + "429" + after) == RateLimited
  {
    var t := before + "429" + after;
    var n := |before|;
    forall i | 0 <= i <= |t| - 3 ensures !OccursAt(t, "404", i) {
      if i < n {
        assert t[i..i + 3][0] == t[i] == before[i];
      } else if i == n {
        assert t[i..i + 3] == "429";
      } else {
        assert t[i..i + 3][2] == t[i + 2] == after[i - n - 1];
      }
    }
    EmbeddedRateLimited(before, after);
  }

  /** A reply that ends the loop: an answer, or an error that is neither a
      404 nor a 429. */
  predicate Ends(r: Reply)
  {
    r.Ok? || Classify(r.msg) == Other
  }

  predicate IsRateLimited(r: Reply)
  {
    r.Err? && Classify(r.msg) == RateLimited
  }

  /** The position of the first reply at or after `from` that ends the loop,
      or the number of replies when none does. */
  function StopFrom(replies: seq<Reply>, from: nat): (k: nat)
    requires from <= |replies|
    ensures from <= k <= |replies|
    ensures forall i :: from <= i < k ==> !Ends(replies[i])
    ensures k < |replies| ==> Ends(replies[k])
    decreases |replies| - from
  {
    if from == |replies| then from
    else if Ends(replies[from]) then from
    else StopFrom(replies, from + 1)
  }

  /** The position of the first reply that ends the loop, or the number of
      replies when none does. */
  function StopIndex(replies: seq<Reply>): nat
  {
    StopFrom(replies, 0)
  }

  /** The warning one failed call adds: one for a 429, none otherwise. */
  function StepWarning(model: string, r: Reply): seq<Notice>
  {
    if IsRateLimited(r) then [Busy(model)] else []
  }

  /** The warnings the first `n` calls show, in order. */
  function Warnings(models: seq<string>, replies: seq<Reply>, n: nat): seq<Notice>
    requires |models| == |replies| && n <= |models|
  {
    if n == 0 then [] else Warnings(models, replies, n - 1) + StepWarning(models[n - 1], replies[n - 1])
  }

  /** Every warning of the first `n` calls names one of them that failed with
      a 429. */
  lemma {:induction false} WarningsNameRateLimited(models: seq<string>, replies: seq<Reply>, n: nat)
    requires |models| == |replies| && n <= |models|
    ensures forall w :: w in Warnings(models, replies, n) ==>
              exists i :: 0 <= i < n && IsRateLimited(replies[i]) && w == Busy(models[i])
  {
    if n > 0 {
      WarningsNameRateLimited(models, replies, n - 1);
      forall w | w in Warnings(models, replies, n)
        ensures exists i :: 0 <= i < n && IsRateLimited(replies[i]) && w == Busy(models[i])
      {
        if w !in Warnings(models, replies, n - 1) {
          assert IsRateLimited(replies[n - 1]) && w == Busy(models[n - 1]);
        }
      }
    }
  }

  /** The number of 429 failures among the first `n` replies. */
  function CountRateLimited(replies: seq<Reply>, n: nat): (c: nat)
    requires n <= |replies|
    ensures c <= n
  {
    if n == 0 then 0
    else CountRateLimited(replies, n - 1) + (if IsRateLimited(replies[n - 1]) then 1 else 0)
  }

  /** The first `n` calls show one warning per 429 failure among them. */
  lemma {:induction false} WarningsCount(models: seq<string>, replies: seq<Reply>, n: nat)
    requires |models| == |replies| && n <= |models|
    ensures |Warnings(models, replies, n)| == CountRateLimited(replies, n)
  {
    if n > 0 {
      WarningsCount(models, replies, n - 1);
    }
  }

  /** Every 429 failure among the first `n` calls is warned about, naming its
      candidate. */
  lemma {:induction false} WarnedWhenRateLimited(models: seq<string>, replies: seq<Reply>, n: nat, i: nat)
    requires |models| == |replies| && i < n <= |models|
    requires IsRateLimited(replies[i])
    ensures Busy(models[i]) in Warnings(models, replies, n)
  {
    var w := Warnings(models, replies, n - 1);
    assert Warnings(models, replies, n) == w + StepWarning(models[n - 1], replies[n - 1]);
    if i < n - 1 {
      WarnedWhenRateLimited(models, replies, n - 1, i);
      assert Busy(models[i]) in w;
    } else {
      assert StepWarning(models[i], replies[i]) == [Busy(models[i])];
    }
  }

  /** A failure whose text contains "404" adds no warning, even when it also
      contains "429". */
  lemma NotFoundIsSilent(models: seq<string>, replies: seq<Reply>, n: nat)
    requires |models| == |replies| && n < |models|
    requires replies[n].Err? && Contains(replies[n].msg, "404")
    ensures Warnings(models, replies, n + 1) == Warnings(models, replies, n)
  {
  }

  /** Everything one press of the button produces: the candidates called, in
      order; the warnings and the error messages shown, in order; the
      `success` flag; and how the run ended. */
  datatype Run = Run(invoked: seq<string>, warnings: seq<Notice>, errors: seq<Notice>,
                     success: bool, outcome: Outcome)

  /** The run the loop must produce, stated through `k`, the first reply that
      ends it: the candidates up to and including `k` are called and no later
      one; each 429 before `k` is warned about; a fatal error at `k` is
      reported; and whenever no candidate answered, the "all unavailable"
      message follows, after a fatal error too. */
  function Expected(models: seq<string>, replies: seq<Reply>): (r: Run)
    requires |replies| == |models|
    ensures r.invoked <= models
    ensures r.success <==> r.outcome.Answered?
  {
    var k := StopIndex(replies);
    var answered := k < |models| && replies[k].Ok?;
    Run(models[..if k < |models| then k + 1 else k],
        Warnings(models, replies, k),
        (if k < |models| && replies[k].Err? then [Failure(models[k], replies[k].msg)] else [])
          + (if answered then [] else [AllUnavailable]),
        answered,
        if k == |models| then Exhausted
        else if replies[k].Ok? then Answered(models[k], replies[k].text)
        else Aborted(models[k], replies[k].msg))
  }

  /** The first answer ends the run: if no earlier reply ended it and
      candidate `i` answers, exactly the candidates up to `i` are called, the
      run succeeds with `i`'s text and no error is shown. */
  lemma ExpectedAnswered(models: seq<string>, replies: seq<Reply>, i: nat)
    requires |replies| == |models| && i < |models|
    requires forall j :: 0 <= j < i ==> !Ends(replies[j])
    requires replies[i].Ok?
    ensures Expected(models, replies)
         == Run(models[..i + 1], Warnings(models, replies, i), [], true,
                Answered(models[i], replies[i].text))
  {
    assert StopIndex(replies) == i;
  }

  /** Any other error ends the run: if no earlier reply ended it and candidate
      `i` fails with neither 404 nor 429, no later candidate is called, the
      error naming `i` is shown, and then the "all unavailable" message too. */
  lemma ExpectedAborted(models: seq<string>, replies: seq<Reply>, i: nat)
    requires |replies| == |models| && i < |models|
    requires forall j :: 0 <= j < i ==> !Ends(replies[j])
    requires replies[i].Err? && Classify(replies[i].msg) == Other
    ensures Expected(models, replies)
         == Run(models[..i + 1], Warnings(models, replies, i),
                [Failure(models[i], replies[i].msg)] + [AllUnavailable], false,
                Aborted(models[i], replies[i].msg))
  {
    assert StopIndex(replies) == i;
  }

  /** When every call fails with a 404 or a 429, every candidate is called,
      every 429 is warned about, and only the "all unavailable" message is
      shown as an error. */
  lemma ExpectedExhausted(models: seq<string>, replies: seq<Reply>)
    requires |replies| == |models|
    requires forall j :: 0 <= j < |replies| ==> !Ends(replies[j])
    ensures Expected(models, replies)
         == Run(models, Warnings(models, replies, |models|), [AllUnavailable], false, Exhausted)
  {
    assert StopIndex(replies) == |replies|;
    assert models[..|models|] == models;
  }

  /** What every run satisfies: the calls are a prefix of the list, made in
      its order; every call but the last failed with a 404 or a 429; there is
      one warning per 429 before the loop stopped; `success` is set exactly
      when a candidate answered; and the "all unavailable" message is shown,
      last, exactly when none of the called candidates answered. */
  lemma ExpectedProperties(models: seq<string>, replies: seq<Reply>)
    requires |replies| == |models|
    ensures var e := Expected(models, replies);
      && e.invoked <= models
      && (models != [] ==> e.invoked != [])
      && (forall i :: 0 <= i < |e.invoked| - 1 ==> !Ends(replies[i]))
      && (|e.invoked| < |models| ==> Ends(replies[|e.invoked| - 1]))
      && |e.warnings| == CountRateLimited(replies, StopIndex(replies))
      && (e.success <==> e.outcome.Answered?)
      && (e.success <==> e.errors == [])
      && (!e.success ==> e.errors[|e.errors| - 1] == AllUnavailable)
      && (AllUnavailable in e.errors <==> forall i :: 0 <= i < |e.invoked| ==> replies[i].Err?)
  {
    var k := StopIndex(replies);
    WarningsCount(models, replies, k);
    var e := Expected(models, replies);
    if k < |models| {
      assert |e.invoked| == k + 1 && e.invoked[k] == models[k];
    } else {
      assert k == |models| && e.invoked == models;
    }
  }

  lemma PrefixGrows<T>(s: seq<T>, i: nat)
    requires i < |s|
    ensures s[..i] + [s[i]] == s[..i + 1]
  {
  }

  /** The loop of the "Analyze with AI" button over `models`, where calling
      candidate `i` gives `replies[i]`. */
  method TryModels(models: seq<string>, replies: seq<Reply>)
    returns (invoked: seq<string>, warnings: seq<Notice>, errors: seq<Notice>, success: bool, outcome: Outcome)
    requires |replies| == |models|
    ensures Run(invoked, warnings, errors, success, outcome) == Expected(models, replies)
  {
    ghost var k := StopIndex(replies);
    invoked, warnings, errors := [], [], [];
    success, outcome := false, Exhausted;
    for i := 0 to |models|
      invariant StopFrom(replies, i) == k
      invariant invoked == models[..i]
      invariant warnings == Warnings(models, replies, i)
      invariant errors == [] && !success && outcome == Exhausted
    {
      PrefixGrows(models, i);
      invoked := invoked + [models[i]];
      match replies[i]
      case Ok(text) =>
        assert i == k;
        outcome := Answered(models[i], text);
        success := true;
        break;
      case Err(msg) =>
        var c := Classify(msg);
        if c == NotFound {
          continue;
        } else if c == RateLimited {
          warnings := warnings + [Busy(models[i])];
          continue;
        } else {
          assert i == k;
          errors := errors + [Failure(models[i], msg)];
          outcome := Aborted(models[i], msg);
          break;
        }
    }
    if !success {
      errors := errors + [AllUnavailable];
    }
    if success {
      ExpectedAnswered(models, replies, k);
    } else if k < |models| {
      ExpectedAborted(models, replies, k);
    } else {
      ExpectedExhausted(models, replies);
    }
  }

  /** The concrete cases of the three candidates of the button. A first
      answer wins and nothing else is called. */
  lemma {:induction false} FirstAnswerWins(answer: string, r1: Reply, r2: Reply)
    ensures Expected(ModelsToTry, [Ok(answer), r1, r2])
         == Run([ModelsToTry[0]], [], [], true, Answered(ModelsToTry[0], answer))
  {
    var replies := [Ok(answer), r1, r2];
    ExpectedAnswered(ModelsToTry, replies, 0);
    assert ModelsToTry[..1] == [ModelsToTry[0]];
  }

  /** A 404 on the first candidate is skipped without a warning, and the
      second one's answer ends the run. */
  lemma {:induction false} NotFoundThenAnswer(answer: string, r2: Reply)
    ensures Expected(ModelsToTry, [Err("404"), Ok(answer), r2])
         == Run(ModelsToTry[..2], [], [], true, Answered(ModelsToTry[1], answer))
  {
    var replies := [Err("404"), Ok(answer), r2];
    EmbeddedNotFound("", "");
    assert "" + "404" + "" == "404";
    ExpectedAnswered(ModelsToTry, replies, 1);
  }

  /** A 429, then a 404, then an answer: one warning, for the first
      candidate, and the third one answers. */
  lemma {:induction false} RateLimitedNotFoundThenAnswer(answer: string)
    ensures Expected(ModelsToTry, [Err("429"), Err("404"), Ok(answer)])
         == Run(ModelsToTry, [Busy(ModelsToTry[0])], [], true, Answered(ModelsToTry[2], answer))
  {
    var replies := [Err("429"), Err("404"), Ok(answer)];
    EmbeddedNotFound("", "");
    LoneRateLimited("", "");
    assert "" + "404" + "" == "404" && "" + "429" + "" == "429";
    ExpectedAnswered(ModelsToTry, replies, 2);
    assert ModelsToTry[..3] == ModelsToTry;
    assert Warnings(ModelsToTry, replies, 1) == [Busy(ModelsToTry[0])];
  }

  /** Every candidate busy or missing: all are called, the busy ones are
      warned about, and only the "all unavailable" message is shown. */
  lemma {:induction false} AllBusyOrMissing()
    ensures Expected(ModelsToTry, [Err("429"), Err("404"), Err("429")])
         == Run(ModelsToTry, [Busy(ModelsToTry[0]), Busy(ModelsToTry[2])], [AllUnavailable], false, Exhausted)
  {
    var replies := [Err("429"), Err("404"), Err("429")];
    EmbeddedNotFound("", "");
    LoneRateLimited("", "");
    assert "" + "404" + "" == "404" && "" + "429" + "" == "429";
    ExpectedExhausted(ModelsToTry, replies);
    assert Warnings(ModelsToTry, replies, 2) == [Busy(ModelsToTry[0])];
  }

  /** A fatal error on the first candidate: no other candidate is called, even
      one that would have answered, and the error is followed by the "all
      unavailable" message. */
  lemma {:induction false} FatalFirstError(r1: Reply, r2: Reply)
    ensures Expected(ModelsToTry, [Err("500"), r1, r2])
         == Run([ModelsToTry[0]], [], [Failure(ModelsToTry[0], "500"), AllUnavailable], false,
                Aborted(ModelsToTry[0], "500"))
  {
    var replies := [Err("500"), r1, r2];
    NoFourIsOther("500");
    ExpectedAborted(ModelsToTry, replies, 0);
    assert ModelsToTry[..1] == [ModelsToTry[0]];
  }
}
