/** The sentiment model's label mapping and its load-once model cache. The model itself is
    opaque: loading it from disk and scoring a text with it are parameters. */
module ModelLoader {
  import opened Results
  import Preprocessing

  const MODEL_PATH: string := "models/tfidf_logreg.joblib"

  /** Scores at or above this are labelled positive. */
  const DECISION_THRESHOLD: real := 0.5

  /** `label_to_str`: 0 is negative, every other label positive. */
  function LabelToStr(lab: int): (s: string)
    ensures lab == 0 <==> s == "negative"
    ensures lab != 0 <==> s == "positive"
  {
    if lab == 0 then "negative" else "positive"
  }

  /** `int(proba_pos >= 0.5)`: the label for a positive-class score. */
  function LabelFor(probaPos: real): (lab: int)
    ensures lab == 0 || lab == 1
    ensures lab == 1 <==> probaPos >= DECISION_THRESHOLD
  {
    if probaPos >= DECISION_THRESHOLD then 1 else 0
  }

  /** A text is called positive exactly when its score reaches the threshold. */
  lemma LabelStrOfScore(probaPos: real)
    ensures LabelToStr(LabelFor(probaPos)) == (if probaPos >= DECISION_THRESHOLD then "positive" else "negative")
  {
  }

  datatype LoadError = FileNotFound(path: string)

  /** A prediction: the label and the positive-class score it came from. */
  datatype Prediction = Prediction(lab: int, probaPos: real)

  /** The module global `_model` of the loader: empty until the first successful load,
      then kept for the life of the process. `M` is the model's type, which the loader
      never looks into. */
  class ModelCache<M> {
    var model: Option<M>

    constructor()
      ensures model == None
    {
      model := None;
    }

    /** `load_model`. A cached model is returned as it is, without looking at the file;
        otherwise the file must exist (`modelFileExists`), and its contents (`stored`)
        are loaded and cached. A missing file is an error and leaves the cache empty. */
    method LoadModel(modelFileExists: bool, stored: M) returns (r: Result<M, LoadError>)
      modifies this
      ensures old(model).Some? ==> r == Ok(old(model).value) && model == old(model)
      ensures old(model).None? && !modelFileExists ==> r == Err(FileNotFound(MODEL_PATH)) && model == None
      ensures old(model).None? && modelFileExists ==> r == Ok(stored) && model == Some(stored)
    {
      if model.None? {
        if !modelFileExists {
          return Err(FileNotFound(MODEL_PATH));
        }
        model := Some(stored);
      }
      r := Ok(model.value);
    }

    /** `predict_sentiment`: load the model, score the simply-preprocessed text with it
        (`score` stands for `predict_proba(...)[0][1]`), and label the score. */
    method PredictSentiment(text: string, nltk: Preprocessing.Nltk, modelFileExists: bool, stored: M,
                            score: (M, string) -> real)
      returns (r: Result<Prediction, LoadError>)
      modifies this
      ensures r.Err? <==> old(model).None? && !modelFileExists
      ensures r.Err? ==> r.error == FileNotFound(MODEL_PATH) && model == None
      ensures r.Ok? ==> model.Some? && model == (if old(model).Some? then old(model) else Some(stored))
      ensures r.Ok? ==> r.value.probaPos == score(model.value, Preprocessing.PreprocessSimple(text, nltk))
      ensures r.Ok? ==> (r.value.lab == 0 || r.value.lab == 1)
                        && (r.value.lab == 1 <==> r.value.probaPos >= DECISION_THRESHOLD)
    {
      var loaded := LoadModel(modelFileExists, stored);
      if loaded.Err? {
        return Err(loaded.error);
      }
      var textClean := Preprocessing.PreprocessSimple(text, nltk);
      var probaPos := score(loaded.value, textClean);
      r := Ok(Prediction(LabelFor(probaPos), probaPos));
    }
  }

  /** Load once: after a successful load every later load returns the same model, whether
      or not the file is still there, and changes nothing. */
  method LoadTwice<M>(cache: ModelCache<M>, firstExists: bool, first: M, laterExists: bool, later: M)
    returns (r1: Result<M, LoadError>, r2: Result<M, LoadError>)
    modifies cache
    ensures r1.Ok? ==> r2 == r1 && cache.model == Some(r1.value)
    ensures r1.Err? ==> r2 == (if laterExists then Ok(later) else r1)
  {
    r1 := cache.LoadModel(firstExists, first);
    r2 := cache.LoadModel(laterExists, later);
  }
}
