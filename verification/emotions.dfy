/**
 The label gate of `predict` in app.py: the vision model's reply is stripped,
 normalised, and kept only when it is one of the five canonical labels;
 anything else becomes the sentinel "Desconocida".
 */
module Emotions {
  import opened Wrappers
  import opened PyStr
  import opened Normalization

  /** `TARGET_EMOTIONS`: the closed set of labels `/predict` may return. */
  const TargetEmotions: seq<string> := ["Furia", "Desagrado", "Temor", "Alegria", "Tristeza"]

  /** The label returned for a reply outside `TargetEmotions`. */
  const Unknown: string := "Desconocida"

  /** The body of a `/predict` response: `{"emotion": label}` with status
      200, or `{"error": ...}` with status 500. */
  datatype PredictReply = Emotion(emotion: string) | ServerError

  /** `predict` from the moment the upstream reply is in hand. `upstream` is
      the reply's message content, or `None` when the call failed or the
      content is null (both raise inside the handler and become a 500). */
  function Predict(upstream: Option<string>): (r: PredictReply)
    ensures r.ServerError? <==> upstream.None?
    ensures r.Emotion? ==> r.emotion in TargetEmotions || r.emotion == Unknown
    ensures r.Emotion? ==>
      (r.emotion in TargetEmotions <==> NormalizeEmotion(upstream.value) in TargetEmotions)
    ensures r.Emotion? && r.emotion in TargetEmotions ==> r.emotion == NormalizeEmotion(upstream.value)
  {
    match upstream
    case None => ServerError
    case Some(content) =>
      var clean := NormalizeEmotion(Strip(content));
      NormalizeIgnoresSurroundingSpace(content);
      assert clean == NormalizeEmotion(content);
      Emotion(if clean in TargetEmotions then clean else Unknown)
  }

  /** Every canonical label is already in normal form, so the normaliser
      leaves it unchanged. */
  lemma TargetsAreNormal()
    ensures forall t :: t in TargetEmotions ==> NormalizeEmotion(t) == t
  {
    forall t | t in TargetEmotions ensures NormalizeEmotion(t) == t {
      CapitalizedWordIsNormal(t);
      NormalFormIsFixed(t);
    }
  }

  /** A reply that is exactly a canonical label comes back unchanged. */
  lemma PredictCanonical(t: string)
    requires t in TargetEmotions
    ensures Predict(Some(t)) == Emotion(t)
  {
    TargetsAreNormal();
  }

  /** The sentinel is in normal form. */
  lemma UnknownIsNormal()
    ensures NormalizeEmotion(Unknown) == Unknown
  {
    CapitalizedWordIsNormal(Unknown);
    NormalFormIsFixed(Unknown);
  }

  lemma UnknownIsNotTarget()
    ensures Unknown !in TargetEmotions
  {
  }

  /** Feeding `predict`'s answer back in as a reply yields the same answer. */
  lemma PredictStable(content: string)
    ensures Predict(Some(Predict(Some(content)).emotion)) == Predict(Some(content))
  {
    var r := Predict(Some(content));
    if r.emotion in TargetEmotions {
      PredictCanonical(r.emotion);
    } else {
      UnknownIsNormal();
      UnknownIsNotTarget();
    }
  }

  /** Every canonical label is a non-empty run of ASCII letters that the
      normaliser leaves unchanged. */
  lemma TargetIsNormalWord(t: string)
    requires t in TargetEmotions
    ensures IsWord(t) && NormalizeEmotion(t) == t
  {
    TargetsAreWords();
    TargetsAreNormal();
  }

  lemma TargetsAreWords()
    ensures forall t :: t in TargetEmotions ==> IsWord(t)
  {
  }

  /** Any spelling of a canonical label, in any letter case, with trailing
      punctuation and surrounding whitespace, is accepted as that label. */
  lemma AcceptsVariant(w1: string, w: string, p: string, w2: string, t: string)
    requires t in TargetEmotions
    requires IsWord(w) && Lower(w) == Lower(t)
    requires IsPunctuation(p)
    requires AllSpace(w1) && AllSpace(w2)
    ensures Predict(Some(w1 + w + p + w2)) == Emotion(t)
  {
    TargetIsNormalWord(t);
    VariantNormalizes(w1, w, p, w2, t);
  }

  /** The same holds when one character is replaced by one that decomposes
      to it, such as an accented letter, or when a character with no ASCII
      decomposition is inserted. */
  lemma AcceptsAccentedVariant(w1: string, a: string, c: char, b: string, p: string, w2: string, t: string)
    requires t in TargetEmotions
    requires IsWord(a + Decompose(c) + b) && Lower(a + Decompose(c) + b) == Lower(t)
    requires IsPunctuation(p)
    requires AllSpace(w1) && AllSpace(w2)
    ensures Predict(Some(w1 + a + [c] + b + p + w2)) == Emotion(t)
  {
    var d := Decompose(c);
    var x, y := w1 + a + [c] + b + p + w2, w1 + (a + d + b) + p + w2;
    AccentedVariant(w1, a, c, b, p, w2);
    AcceptsVariant(w1, a + d + b, p, w2, t);
    assert NormalizeEmotion(x) == NormalizeEmotion(y);
  }

  /** "Alegría!!" is accepted as "Alegria". */
  lemma AccentedExample(reply: string)
    requires reply == "Alegría!!"
    ensures Predict(Some(reply)) == Emotion("Alegria")
  {
    var a, b, p := "Alegr", "a", "!!";
    assert reply == [] + a + ['í'] + b + p + [];
    SpanishAccents();
    assert a + "i" + b == "Alegria";
    AcceptsAccentedVariant([], a, 'í', b, p, [], "Alegria");
  }

  /** "  TRISTEZA " is accepted as "Tristeza". */
  lemma ShoutedExample(reply: string)
    requires reply == "  TRISTEZA "
    ensures Predict(Some(reply)) == Emotion("Tristeza")
  {
    var w1, w, w2 := "  ", "TRISTEZA", " ";
    assert reply == w1 + w + [] + w2;
    AcceptsVariant(w1, w, [], w2, "Tristeza");
  }

  /** A reply whose normalised form is not a canonical label becomes the
      sentinel, whatever it said. */
  lemma RejectsOffList(content: string)
    requires NormalizeEmotion(content) !in TargetEmotions
    ensures Predict(Some(content)) == Emotion(Unknown)
  {
  }
}
