// The protocol-independent payment model (app/canonical.py) and its construction checks.
module Canonical {
  import opened Results
  import opened Bytes

  predicate IsPrintable(s: string) {
    forall i :: 0 <= i < |s| ==> ' ' <= s[i] <= '~'
  }

  predicate IsUpperAlpha(s: string) {
    forall i :: 0 <= i < |s| ==> 'A' <= s[i] <= 'Z'
  }

  datatype NetworkCorrelation = NetworkCorrelation(stan: string, rrn: string) {
    predicate Valid() {
      |stan| == 6 && AllDigits(stan) && |rrn| == 12 && IsPrintable(rrn)
    }
  }

  datatype CardPaymentInstrument = CardPaymentInstrument(pan: string, iccData: Option<Octets>) {
    predicate Valid() {
      12 <= |pan| <= 19 && AllDigits(pan) && iccData != Some([])
    }
  }

  datatype AuthorizationRequest = AuthorizationRequest(
    amountMinor: int, currency: string, merchantId: string, terminalId: string,
    instrument: CardPaymentInstrument, correlation: NetworkCorrelation)
  {
    predicate OwnFieldsValid() {
      amountMinor > 0 && |currency| == 3 && IsUpperAlpha(currency) && merchantId != "" && terminalId != ""
    }

    predicate Valid() {
      OwnFieldsValid() && instrument.Valid() && correlation.Valid()
    }
  }

  predicate CodesWithin(s: string, low: int, high: int) {
    forall i :: 0 <= i < |s| ==> low <= s[i] as int <= high
  }

  /** What the three constructors accept, in character codes. */
  lemma ConstructorsExactly(r: AuthorizationRequest)
    ensures r.correlation.Valid() <==>
      && |r.correlation.stan| == 6 && CodesWithin(r.correlation.stan, 48, 57)
      && |r.correlation.rrn| == 12 && CodesWithin(r.correlation.rrn, 32, 126)
    ensures r.instrument.Valid() <==>
      && 11 < |r.instrument.pan| < 20 && CodesWithin(r.instrument.pan, 48, 57)
      && (r.instrument.iccData.Some? ==> |r.instrument.iccData.value| > 0)
    ensures r.OwnFieldsValid() <==>
      && r.amountMinor >= 1 && |r.currency| == 3 && CodesWithin(r.currency, 65, 90)
      && |r.merchantId| > 0 && |r.terminalId| > 0
  {
  }
}
