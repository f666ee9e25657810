/**
  The bucket definition file: one bucket per line, whitespace-separated
  fields `name [region [access_key [secret_key]]]`, missing trailing fields
  become `None`, lines without tokens are skipped.
 */
module Buckets {
  import opened Wrappers
  import opened Tokens

  /** One parsed line of the bucket definition file. */
  datatype BucketDef = BucketDef(
    name: string,
    region: Option<string>,
    accessKey: Option<string>,
    secretKey: Option<string>)

  /** `values[i] if len(values) >= i + 1 else None` */
  function Nth(values: seq<string>, i: nat): Option<string> {
    if |values| >= i + 1 then Some(values[i]) else None
  }

  /** The bucket a line's tokens describe, or `None` for a line without tokens. */
  function FromTokens(values: seq<string>): Option<BucketDef> {
    if |values| < 1 then None
    else Some(BucketDef(values[0], Nth(values, 1), Nth(values, 2), Nth(values, 3)))
  }

  /** The bucket a line of the definition file describes, `None` for a blank line. */
  function ParseLine(line: string): (r: Option<BucketDef>)
    ensures r.None? <==> AllSpace(line)
    ensures r.Some? ==> WellFormed(r.value)
  {
    SplitEmptyIff(line);
    FromTokens(Split(line))
  }

  /**
    The definitions a line can describe: every field is a token, and an
    optional field is present only when the one before it is.
   */
  predicate WellFormed(d: BucketDef) {
    IsToken(d.name) &&
    (d.region.Some? ==> IsToken(d.region.value)) &&
    (d.accessKey.Some? ==> IsToken(d.accessKey.value) && d.region.Some?) &&
    (d.secretKey.Some? ==> IsToken(d.secretKey.value) && d.accessKey.Some?)
  }

  /** The fields of a definition in file order, up to the first absent one. */
  function Fields(d: BucketDef): seq<string> {
    if d.region.None? then [d.name]
    else if d.accessKey.None? then [d.name, d.region.value]
    else if d.secretKey.None? then [d.name, d.region.value, d.accessKey.value]
    else [d.name, d.region.value, d.accessKey.value, d.secretKey.value]
  }

  /**
    The canonical line describing `d`: its fields separated by single spaces.
    `ParseSpaced` states the round trip for every other layout.
   */
  function Render(d: BucketDef): string {
    Join(Fields(d))
  }

  function Min(a: nat, b: nat): nat {
    if a <= b then a else b
  }

  /**
    Positional mapping: a line with k >= 1 tokens gives token 0 as the name and
    tokens 1, 2, 3 as region, access key and secret key exactly when k > 1, 2, 3;
    tokens beyond the fourth are dropped.
   */
  lemma FieldsOfTokens(values: seq<string>)
    requires |values| >= 1
    ensures FromTokens(values).Some?
    ensures Fields(FromTokens(values).value) == values[..Min(4, |values|)]
    ensures FromTokens(values) == FromTokens(values[..Min(4, |values|)])
    ensures var d := FromTokens(values).value;
      d.name == values[0] &&
      (d.region.Some? <==> |values| > 1) && (d.region.Some? ==> d.region.value == values[1]) &&
      (d.accessKey.Some? <==> |values| > 2) && (d.accessKey.Some? ==> d.accessKey.value == values[2]) &&
      (d.secretKey.Some? <==> |values| > 3) && (d.secretKey.Some? ==> d.secretKey.value == values[3])
  {
  }

  /** Reading back the fields of a well-formed definition gives the definition. */
  lemma TokensOfFields(d: BucketDef)
    requires WellFormed(d)
    ensures FromTokens(Fields(d)) == Some(d)
  {
  }

  /** Round trip: a rendered well-formed definition parses back to itself. */
  lemma ParseRender(d: BucketDef)
    requires WellFormed(d)
    ensures ParseLine(Render(d)) == Some(d)
  {
    SplitJoin(Fields(d));
    TokensOfFields(d);
  }

  /**
    Round trip with any whitespace: a well-formed definition whose fields are
    separated by non-empty whitespace runs, with any leading and trailing
    whitespace (such as the newline `readlines` keeps), parses back to itself.
   */
  lemma ParseSpaced(d: BucketDef, ws: seq<string>)
    requires WellFormed(d)
    requires |ws| == |Fields(d)| + 1
    requires forall i :: 0 <= i < |ws| ==> AllSpace(ws[i])
    requires forall i :: 0 < i < |ws| - 1 ==> ws[i] != []
    ensures ParseLine(Spaced(ws, Fields(d))) == Some(d)
  {
    SplitSpaced(ws, Fields(d));
    TokensOfFields(d);
  }
}
