/**
 * Document ids. A MongoDB ObjectId is modelled as a natural number whose string form is
 * its decimal notation; a request carries ids as strings, which Mongoose casts back.
 */
module ObjectIds {
  import opened Wrappers
  import opened Text
  import ErrorHandler

  type Id = nat

  /** `id.toString()`. */
  function IdText(id: Id): string {
    NatToString(id)
  }

  predicate AllDigits(s: string) {
    forall i | 0 <= i < |s| :: IsDigit(s[i])
  }

  /** The canonical notation of a number: digits only, and no leading zero unless the number is 0. */
  predicate Canonical(s: string) {
    |s| > 0 && AllDigits(s) && (|s| == 1 || s[0] != '0')
  }

  function DigitsValue(s: string): nat
    requires AllDigits(s)
  {
    if |s| == 0 then 0 else 10 * DigitsValue(s[..|s| - 1]) + (s[|s| - 1] as int - 48)
  }

  /** The cast of a request string to an id: only the string form of an id is an id. */
  function ParseId(s: string): (r: Option<Id>)
    ensures r.Some? <==> Canonical(s)
    ensures r.Some? ==> IdText(r.value) == s
  {
    if Canonical(s) then ValueText(s); Some(DigitsValue(s)) else None
  }

  lemma {:induction false} LeadValue(s: string)
    requires |s| > 0 && AllDigits(s) && s[0] != '0'
    ensures DigitsValue(s) >= 1
    decreases |s|
  {
    if |s| > 1 {
      LeadValue(s[..|s| - 1]);
    }
  }

  lemma {:induction false} ValueText(s: string)
    requires Canonical(s)
    ensures NatToString(DigitsValue(s)) == s
    decreases |s|
  {
    if |s| > 1 {
      var p := s[..|s| - 1];
      assert Canonical(p);
      ValueText(p);
      LeadValue(p);
      var v := DigitsValue(p);
      var d := s[|s| - 1] as int - 48;
      assert DigitsValue(s) == 10 * v + d;
      assert (10 * v + d) / 10 == v && (10 * v + d) % 10 == d;
      assert s == p + [s[|s| - 1]];
    }
  }

  lemma {:induction false} TextValue(n: nat)
    ensures DigitsValue(NatToString(n)) == n
    ensures Canonical(NatToString(n))
    decreases n
  {
    if n >= 10 {
      TextValue(n / 10);
      var s := NatToString(n);
      assert s[..|s| - 1] == NatToString(n / 10);
    }
  }

  /** Casting the string form of an id gives the id back, so distinct ids have distinct string forms. */
  lemma ParseIdText(id: Id)
    ensures ParseId(IdText(id)) == Some(id)
  {
    TextValue(id);
  }

  lemma IdTextInjective(a: Id, b: Id)
    ensures IdText(a) == IdText(b) ==> a == b
  {
    ParseIdText(a);
    ParseIdText(b);
  }

  /** The `CastError` Mongoose raises when a request string is not an id; it has no status code. */
  function CastFailure(value: string, path: string, model: string, stack: string): ErrorHandler.AppError {
    ErrorHandler.AppError(
      "CastError",
      "Cast to ObjectId failed for value \"" + value + "\" (type string) at path \"" + path + "\" for model \"" + model + "\"",
      None, None, None, stack)
  }
}
