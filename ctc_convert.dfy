/** Conversion of training examples into the CTC input layout: the per-example
    encoder with its id loop, and the batch loop that collects the results. */
module CtcConvert {
  import opened CtcText

  datatype Option<T> = None | Some(value: T)

  /** One training example. The feature matrix is represented by its shape
      only: `rows` time steps of `ceps` cepstral coefficients. */
  datatype Example = Example(rows: nat, ceps: nat, text: string)

  /** The shape of a feature tensor [batch x time steps x coefficients]. */
  datatype Shape = Shape(batch: nat, steps: nat, ceps: nat)

  /** The id loop: one id per token, by the fixed table. */
  method EncodeTokens(tokens: seq<Token>) returns (ids: seq<int>)
    ensures |ids| == |tokens|
    ensures forall k :: 0 <= k < |tokens| ==> ids[k] == TokenId(tokens[k])
    ensures ids == Encode(tokens)
  {
    ids := [];
    var i := 0;
    while i < |tokens|
      invariant 0 <= i <= |tokens|
      invariant |ids| == i
      invariant forall k :: 0 <= k < i ==> ids[k] == TokenId(tokens[k])
    {
      var x := tokens[i];
      if x == Space {
        ids := ids + [SpaceIndex];
      } else if x == Ch(Yo) {
        ids := ids + [YoIndex - FirstIndex];
      } else {
        ids := ids + [x.c as int - FirstIndex];
      }
      i := i + 1;
    }
    EncodeIds(tokens);
  }

  /** One example in CTC form: the feature tensor [1 x rows x ceps], the id
      sequence, the one-element time-step list and the normalised transcript. */
  method ConvertInput(ex: Example) returns (tensor: Shape, target: seq<int>, seqLength: seq<nat>, original: string)
    ensures tensor == Shape(1, ex.rows, ex.ceps)
    ensures seqLength == [ex.rows]
    ensures original == CleanTranscript(ex.text)
    ensures target == Labels(original)
  {
    tensor := Shape(1, ex.rows, ex.ceps);
    seqLength := [tensor.steps];
    original := CleanTranscript(ex.text);
    var tokens := Tokens(original);
    target := EncodeTokens(tokens);
  }

  /** np.concatenate along the batch axis: it fails on an empty tuple and on
      tensors whose time or coefficient dimensions differ. */
  function Concatenate(ts: seq<Shape>): (r: Option<Shape>)
    ensures r.Some? <==> ts != [] && forall i :: 0 <= i < |ts| ==> ts[i].steps == ts[0].steps && ts[i].ceps == ts[0].ceps
    ensures r.Some? ==> r.value.steps == ts[0].steps && r.value.ceps == ts[0].ceps
  {
    if ts == [] then None
    else if |ts| == 1 then Some(ts[0])
    else
      match Concatenate(ts[1..])
      case None => None
      case Some(rest) =>
        if rest.steps == ts[0].steps && rest.ceps == ts[0].ceps
        then Some(Shape(ts[0].batch + rest.batch, rest.steps, rest.ceps))
        else None
  }

  /** Concatenating single-example tensors of one shape gives a batch
      dimension equal to their number. */
  lemma {:induction false} ConcatenateUnits(ts: seq<Shape>)
    requires ts != []
    requires forall i :: 0 <= i < |ts| ==> ts[i] == Shape(1, ts[0].steps, ts[0].ceps)
    ensures Concatenate(ts) == Some(Shape(|ts|, ts[0].steps, ts[0].ceps))
  {
    if |ts| > 1 {
      assert ts[1..][0] == ts[1];
      ConcatenateUnits(ts[1..]);
    }
  }

  /** Every example of the batch has the same feature shape. */
  predicate Uniform(batch: seq<Example>)
  {
    forall i :: 0 <= i < |batch| ==> batch[i].rows == batch[0].rows && batch[i].ceps == batch[0].ceps
  }

  /** The batch loop: element i of every list is the result of converting
      batch[i]; the tensors are then concatenated along the batch axis. */
  method ConvertInputs(batch: seq<Example>)
    returns (features: Option<Shape>, targets: seq<seq<int>>, seqLengths: seq<nat>, originals: seq<string>)
    ensures |targets| == |seqLengths| == |originals| == |batch|
    ensures forall i :: 0 <= i < |batch| ==> seqLengths[i] == batch[i].rows
    ensures forall i :: 0 <= i < |batch| ==> originals[i] == CleanTranscript(batch[i].text)
    ensures forall i :: 0 <= i < |batch| ==> targets[i] == Labels(originals[i])
    ensures features.Some? <==> batch != [] && Uniform(batch)
    ensures features.Some? ==> features.value == Shape(|batch|, batch[0].rows, batch[0].ceps)
  {
    var tensors: seq<Shape> := [];
    targets := [];
    seqLengths := [];
    originals := [];
    var i := 0;
    while i < |batch|
      invariant 0 <= i <= |batch|
      invariant |tensors| == |targets| == |seqLengths| == |originals| == i
      invariant forall k :: 0 <= k < i ==> tensors[k] == Shape(1, batch[k].rows, batch[k].ceps)
      invariant forall k :: 0 <= k < i ==> seqLengths[k] == batch[k].rows
      invariant forall k :: 0 <= k < i ==> originals[k] == CleanTranscript(batch[k].text)
      invariant forall k :: 0 <= k < i ==> targets[k] == Labels(originals[k])
    {
      var tensor, target, seqLength, original := ConvertInput(batch[i]);
      tensors := tensors + [tensor];
      seqLengths := seqLengths + seqLength;
      originals := originals + [original];
      targets := targets + [target];
      i := i + 1;
    }
    features := Concatenate(tensors);
    ConcatenateBatch(batch, tensors);
  }

  /** The concatenation of the per-example tensors of `batch`. */
  lemma {:induction false} ConcatenateBatch(batch: seq<Example>, tensors: seq<Shape>)
    requires |tensors| == |batch|
    requires forall k :: 0 <= k < |batch| ==> tensors[k] == Shape(1, batch[k].rows, batch[k].ceps)
    ensures Concatenate(tensors).Some? <==> batch != [] && Uniform(batch)
    ensures Concatenate(tensors).Some? ==> Concatenate(tensors).value == Shape(|batch|, batch[0].rows, batch[0].ceps)
  {
    if batch != [] && Uniform(batch) {
      ConcatenateUnits(tensors);
    }
  }
}
