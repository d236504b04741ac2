/**
  The training loop of neural_network.py (`train_model`), reduced to what app.py sees of
  it: the progress reports. The embeddings, the optimiser and the loss are floating-point
  torch code and are not modelled.
*/
module NeuralNetwork {

  /** The epoch loop of `train_model`, reduced to its progress reports: after each epoch
      the callback, when there is one, receives `(epoch + 1, epochs)`. */
  method TrainModel(epochs: nat, hasCallback: bool) returns (progress: seq<(nat, nat)>)
    ensures hasCallback ==> |progress| == epochs
    ensures hasCallback ==> forall e :: 0 <= e < epochs ==> progress[e] == (e + 1, epochs)
    ensures !hasCallback ==> progress == []
  {
    progress := [];
    var epoch := 0;
    while epoch < epochs
      invariant 0 <= epoch <= epochs
      invariant hasCallback ==> |progress| == epoch
      invariant hasCallback ==> forall e :: 0 <= e < epoch ==> progress[e] == (e + 1, epochs)
      invariant !hasCallback ==> progress == []
    {
      if hasCallback {
        progress := progress + [(epoch + 1, epochs)];
      }
      epoch := epoch + 1;
    }
  }
}
