/** Correlation ids: what survives `sanitize_request_id`. */
module RequestId {
  import opened Options
  import opened Text
  import opened Numerals

  const MAX_REQUEST_ID: nat := 128

  predicate IsIdChar(c: char) {
    IsAlphanumeric(c) || c == '-' || c == '_' || c == '.' || c == ':' || c == '/'
  }

  /** ASCII letters and digits, and these five marks. */
  lemma PermittedIff(c: char)
    ensures IsIdChar(c) <==> 'a' <= c <= 'z' || 'A' <= c <= 'Z' || '0' <= c <= '9' || c in "-_.:/"
  {}

  function Kept(s: string): (r: string)
    ensures forall c :: c in r <==> c in s && IsIdChar(c)
  {
    if s == "" then ""
    else
      var n := |s| - 1;
      assert forall c :: c in s <==> c in s[..n] || c == s[n];
      Kept(s[..n]) + if IsIdChar(s[n]) then [s[n]] else []
  }

  /** How many permitted characters there are. */
  function Permitted(s: string): nat {
    if s == "" then 0 else Permitted(s[..|s| - 1]) + if IsIdChar(s[|s| - 1]) then 1 else 0
  }

  /** `id` is the first permitted characters of `value`, in their order, up to 128 of them. */
  predicate FirstPermitted(value: string, id: string) {
    && |id| == (if Permitted(value) < 128 then Permitted(value) else 128)
    && forall i :: 0 <= i < |value| && IsIdChar(value[i]) && Permitted(value[..i]) < |id| ==>
         id[Permitted(value[..i])] == value[i]
  }

  lemma {:induction false} PermittedConcat(a: string, b: string)
    ensures Permitted(a + b) == Permitted(a) + Permitted(b)
  {
    if b == "" {
      assert a + b == a;
    } else {
      assert (a + b)[..|a + b| - 1] == a + b[..|b| - 1];
      PermittedConcat(a, b[..|b| - 1]);
    }
  }

  lemma {:induction false} KeptLength(s: string)
    ensures |Kept(s)| == Permitted(s)
  {
    hide IsIdChar;
    if s == "" {
    } else {
      KeptLength(s[..|s| - 1]);
    }
  }

  /** Filtering keeps each permitted character, at the place its predecessors leave it. */
  lemma {:induction false} KeptAt(s: string, i: nat)
    requires i < |s| && IsIdChar(s[i])
    ensures Permitted(s[..i]) < |Kept(s)| && Kept(s)[Permitted(s[..i])] == s[i]
  {
    hide IsIdChar;
    var front := s[..|s| - 1];
    assert i < |front| ==> front[i] == s[i] && front[..i] == s[..i];
    if i < |front| {
      KeptAt(front, i);
    } else {
      KeptLength(front);
    }
  }

  lemma KeptInOrder(s: string)
    ensures |Kept(s)| == Permitted(s)
    ensures forall i :: 0 <= i < |s| && IsIdChar(s[i]) ==>
              Permitted(s[..i]) < |Kept(s)| && Kept(s)[Permitted(s[..i])] == s[i]
  {
    hide Kept, Permitted, IsIdChar;
    KeptLength(s);
    forall i | 0 <= i < |s| && IsIdChar(s[i])
      ensures Permitted(s[..i]) < |Kept(s)| && Kept(s)[Permitted(s[..i])] == s[i]
    {
      KeptAt(s, i);
    }
  }

  lemma {:induction false} NonePermitted(s: string)
    requires forall c :: c in s ==> !IsIdChar(c)
    ensures Permitted(s) == 0
  {
    if s == "" {
    } else {
      assert s[|s| - 1] in s;
      NonePermitted(s[..|s| - 1]);
    }
  }

  /** White space is not permitted, so what surrounds a text adds nothing to it. */
  lemma PadsAddNothing(value: string, before: string, inner: string, after: string, id: string)
    requires Padded(value, before, inner, after) && FirstPermitted(inner, id)
    ensures FirstPermitted(value, id) && Permitted(value) == Permitted(inner)
  {
    NonePermitted(before);
    NonePermitted(after);
    PermittedConcat(before, inner);
    PermittedConcat(before + inner, after);
    PermittedIsInside(value, before, inner, after);
    hide IsIdChar, AllWhite;
    forall i | 0 <= i < |value| && IsIdChar(value[i]) && Permitted(value[..i]) < |id|
      ensures id[Permitted(value[..i])] == value[i]
    {
      var k := i - |before|;
      assert value[..i] == before + inner[..k] && value[i] == inner[k];
      PermittedConcat(before, inner[..k]);
    }
  }

  lemma PermittedIsInside(value: string, before: string, inner: string, after: string)
    requires Padded(value, before, inner, after)
    ensures forall i :: 0 <= i < |value| && IsIdChar(value[i]) ==> |before| <= i < |before| + |inner|
  {
    assert forall i :: 0 <= i < |before| ==> value[i] == before[i] && before[i] in before;
    assert forall k :: 0 <= k < |after| ==> value[|before| + |inner| + k] == after[k] && after[k] in after;
    assert forall i :: |before| + |inner| <= i < |value| ==> value[i] == after[i - |before| - |inner|];
  }

  /** What survives is the first 128 permitted characters, in order; none left is a refusal. */
  function SanitizeRequestId(value: string): (r: Option<string>)
    ensures r.Some? ==> IsRequestId(r.value) && FirstPermitted(value, r.value)
    ensures r.None? ==> Permitted(value) == 0
  {
    SanitizedInOrder(value);
    var kept := Kept(Trim(value));
    var id := if |kept| > MAX_REQUEST_ID then kept[..MAX_REQUEST_ID] else kept;
    if id == "" then None else Some(id)
  }

  lemma SanitizedInOrder(value: string)
    ensures var kept := Kept(Trim(value));
            var id := if |kept| > MAX_REQUEST_ID then kept[..MAX_REQUEST_ID] else kept;
            FirstPermitted(value, id) && |kept| == Permitted(value)
  {
    hide Trim, Kept, IsIdChar, Permitted;
    TrimPads(value);
    KeptInOrder(Trim(value));
    var before, after :| Padded(value, before, Trim(value), after);
    var kept := Kept(Trim(value));
    var id := if |kept| > MAX_REQUEST_ID then kept[..MAX_REQUEST_ID] else kept;
    PadsAddNothing(value, before, Trim(value), after, id);
  }

  predicate IsRequestId(id: string) {
    1 <= |id| <= MAX_REQUEST_ID && forall c :: c in id ==> IsIdChar(c)
  }

  lemma {:induction false} KeptOfClean(s: string)
    requires forall c :: c in s ==> IsIdChar(c)
    ensures Kept(s) == s
  {
    hide IsIdChar;
    if s == "" {
    } else {
      var front := s[..|s| - 1];
      assert s[|s| - 1] in s;
      KeptOfClean(front);
      assert front + [s[|s| - 1]] == s;
    }
  }

  /** Every id is left alone, so sanitising twice is sanitising once. */
  lemma SanitizeKeepsIds(id: string)
    requires IsRequestId(id)
    ensures SanitizeRequestId(id) == Some(id)
  {
    assert id[0] in id && id[|id| - 1] in id;
    TrimOfTrimmed(id);
    KeptOfClean(id);
  }

  /** It is refused exactly when no permitted character occurs in it. */
  lemma RefusedIffNothingLeft(value: string)
    ensures SanitizeRequestId(value).None? <==> forall c :: c in value ==> !IsIdChar(c)
  {
    KeptSurvivesTrim(value);
    hide Kept, Trim, IsIdChar;
    var kept := Kept(Trim(value));
    if kept != "" {
      assert kept[0] in kept;
    }
  }

  lemma KeptSurvivesTrim(value: string)
    ensures forall c :: IsIdChar(c) && c in value ==> c in Trim(value)
  {
    var t := TrimStart(value);
    var u := TrimEnd(t);
    hide TrimStart, TrimEnd;
    assert value == value[..|value| - |t|] + t && t == u + t[|u|..];
    forall c | IsIdChar(c) && c in value
      ensures c in u
    {
      assert !IsWhite(c);
    }
  }

  /** `generated_request_id`, from the process id and the wall clock. */
  function GeneratedRequestId(processId: nat, nanos: nat): string {
    "scintilla-fn-" + Decimal(processId) + "-" + Decimal(nanos)
  }

  /** For a 32-bit process id and 128-bit nanoseconds a generated id is itself well formed. */
  lemma GeneratedIsId(processId: nat, nanos: nat)
    requires processId < 0x1_0000_0000 && nanos < Power(10, 39)
    ensures IsRequestId(GeneratedRequestId(processId, nanos))
  {
    hide Numeral;
    DecimalShort(processId);
    NumeralLength(nanos, 10, 39);
  }

  lemma DashSplits(a: string, b: string, c: string, d: string)
    requires '-' !in a && '-' !in c && a + ['-'] + b == c + ['-'] + d
    ensures a == c && b == d
  {
    hide IndexOf;
    IndexOfFirst(a, '-', b);
    IndexOfFirst(c, '-', d);
    var t := a + ['-'] + b;
    assert t[..|a|] == a && t[|a| + 1..] == b;
    assert t[..|c|] == c && t[|c| + 1..] == d;
  }

  lemma HeadDropped(head: string, a: string, b: string)
    requires head + a == head + b
    ensures a == b
  {
    assert (head + a)[|head|..] == a && (head + b)[|head|..] == b;
  }

  lemma GeneratedIs(p: nat, n: nat)
    ensures GeneratedRequestId(p, n) == "scintilla-fn-" + (Decimal(p) + ['-'] + Decimal(n))
  {
    hide Numeral;
    var head, a, b := "scintilla-fn-", Decimal(p), Decimal(n);
    assert head + a + ['-'] + b == head + (a + ['-'] + b);
  }

  /** Different processes, or one process at different moments, never generate the same id. */
  lemma GeneratedIdsDiffer(p: nat, n: nat, q: nat, m: nat)
    requires GeneratedRequestId(p, n) == GeneratedRequestId(q, m)
    ensures p == q && n == m
  {
    hide Numeral, GeneratedRequestId;
    GeneratedIs(p, n);
    GeneratedIs(q, m);
    HeadDropped("scintilla-fn-", Decimal(p) + ['-'] + Decimal(n), Decimal(q) + ['-'] + Decimal(m));
    NoDash(p);
    NoDash(q);
    DashSplits(Decimal(p), Decimal(n), Decimal(q), Decimal(m));
    ValueOfNumeral(p, 10);
    ValueOfNumeral(q, 10);
    ValueOfNumeral(n, 10);
    ValueOfNumeral(m, 10);
  }

  lemma NoDash(n: nat)
    ensures '-' !in Decimal(n)
  {
    assert !IsDigitChar('-');
  }
}
