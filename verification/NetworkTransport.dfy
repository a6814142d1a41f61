// The transport boundary (app/network_transport.py): what a transport may answer, and the adapter
// that encodes a request and decodes the answer.
module NetworkTransport {
  import opened Results
  import opened Bytes
  import opened Iso8583

  datatype TransportOutcome = Response | Timeout | Failure

  datatype TransportExchange = TransportExchange(
    outcome: TransportOutcome, responsePayload: Option<Octets>, error: Option<string>, deliveryUnknown: bool)

  datatype ExchangeError =
    | MissingPayload
    | FailureMetadata
    | UnexpectedPayload
    | DeliveryMustBeUnknown
    | DeliveryCannotBeUnknown

  /** The constructor's checks, in the order they are made. */
  function CheckExchange(x: TransportExchange): (r: Result<(), ExchangeError>)
  {
    match x.outcome
    case Response =>
      if x.responsePayload.None? then Err(MissingPayload)
      else if x.error.Some? || x.deliveryUnknown then Err(FailureMetadata)
      else Ok(())
    case Timeout =>
      if x.responsePayload.Some? then Err(UnexpectedPayload)
      else if !x.deliveryUnknown then Err(DeliveryMustBeUnknown)
      else Ok(())
    case Failure =>
      if x.responsePayload.Some? then Err(UnexpectedPayload)
      else if x.deliveryUnknown then Err(DeliveryCannotBeUnknown)
      else Ok(())
  }

  type ValidExchange = x: TransportExchange | CheckExchange(x).Ok?
    witness TransportExchange(Failure, None, None, false)

  /** The checks admit exactly the exchanges that carry a payload iff they are responses, say delivery
      is unknown iff they are timeouts, and carry no error text with a response. */
  lemma ValidExchangesExactly(x: TransportExchange)
    ensures CheckExchange(x).Ok? <==>
      && (x.responsePayload.Some? <==> x.outcome.Response?)
      && (x.deliveryUnknown <==> x.outcome.Timeout?)
      && (x.error.Some? ==> !x.outcome.Response?)
    ensures CheckExchange(x).Err? ==> (
      CheckExchange(x).error ==
        if x.outcome.Response? then (if x.responsePayload.None? then MissingPayload else FailureMetadata)
        else if x.responsePayload.Some? then UnexpectedPayload
        else if x.outcome.Timeout? then DeliveryMustBeUnknown
        else DeliveryCannotBeUnknown)
  {
  }

  /** What the external call did. */
  datatype TransportAnswer = Returned(exchange: ValidExchange) | Raised

  /** An error text: the transport's own, or "invalid ISO 8583 response: " and the codec's. */
  datatype ErrorText = FromTransport(text: string) | InvalidResponse(cause: CodecError)

  function TransportText(error: Option<string>): Option<ErrorText> {
    if error.Some? then Some(FromTransport(error.value)) else None
  }

  datatype ExchangeResult = ExchangeResult(
    outcome: TransportOutcome, response: Option<Message>, error: Option<ErrorText>, deliveryUnknown: bool)

  datatype AdapterError = BadTimeoutSeconds | NotEncodable | TransportRaised

  /** `ISO8583NetworkAdapter.exchange`: a payload that does not decode counts as a local failure. */
  function Exchange(specs: FieldSpecs, request: Message, timeout: real, answer: TransportAnswer):
    (r: Result<ExchangeResult, AdapterError>)
    requires ValidSpecs(specs)
    ensures r.Ok? ==> (r.value.response.Some? <==> r.value.outcome.Response?)
  {
    if timeout <= 0.0 then Err(BadTimeoutSeconds)
    else if Encode(specs, request).None? then Err(NotEncodable)
    else if answer.Raised? then Err(TransportRaised)
    else
      var exchange := answer.exchange;
      match exchange.outcome
      case Timeout => Ok(ExchangeResult(Timeout, None, TransportText(exchange.error), true))
      case Failure => Ok(ExchangeResult(Failure, None, TransportText(exchange.error), false))
      case Response =>
        var decoded := Decode(specs, exchange.responsePayload.value);
        if decoded.Err? then Ok(ExchangeResult(Failure, None, Some(InvalidResponse(decoded.error)), false))
        else Ok(ExchangeResult(Response, Some(decoded.value), None, false))
  }

  /** A message another codec of the same profile encoded comes out of the adapter unchanged. */
  lemma EncodedResponseArrives(specs: FieldSpecs, request: Message, timeout: real, response: Message)
    requires ValidSpecs(specs) && timeout > 0.0 && Encode(specs, request).Some? && Encode(specs, response).Some?
    ensures Exchange(specs, request, timeout,
                     Returned(TransportExchange(Response, Encode(specs, response), None, false)))
      == Ok(ExchangeResult(Response, Some(response), None, false))
  {
    hide Encode, Decode;
    DecodeOfEncode(specs, response);
  }

  /** When there is a result and what it says: a response iff it is decoded, unknown delivery iff the
      transport timed out, and failure for a local fault or an answer that does not decode. */
  lemma ResultsExactly(specs: FieldSpecs, request: Message, timeout: real, answer: TransportAnswer)
    requires ValidSpecs(specs)
    ensures var r := Exchange(specs, request, timeout, answer);
      && (r.Ok? <==> timeout > 0.0 && Encode(specs, request).Some? && answer.Returned?)
      && (r.Err? ==>
            r.error == if timeout <= 0.0 then BadTimeoutSeconds
                       else if Encode(specs, request).None? then NotEncodable
                       else TransportRaised)
      && (r.Ok? ==>
            && (r.value.response.Some? <==> r.value.outcome.Response?)
            && (r.value.deliveryUnknown <==> answer.exchange.outcome.Timeout?)
            && (r.value.outcome.Timeout? <==> answer.exchange.outcome.Timeout?)
            && (r.value.outcome.Response? <==>
                  answer.exchange.outcome.Response?
                  && Decode(specs, answer.exchange.responsePayload.value).Ok?)
            && (r.value.outcome.Response? ==>
                  Ok(r.value.response.value) == Decode(specs, answer.exchange.responsePayload.value)))
  {
    hide Encode, Decode, CheckExchange;
    if answer.Returned? {
      ValidExchangesExactly(answer.exchange);
    }
  }
}
