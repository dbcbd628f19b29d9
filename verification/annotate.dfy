/**
 * The line formatting of `get_ip_location` and the loop of `annotate_ips`.
 * The geolocation request itself is not modelled: its outcome (the HTTP
 * status and the optional `country` field of the decoded body) is an input.
 */
module Annotate {
  import opened Wrappers
  import opened Text

  /** Label text written right after the '#' (`custom_prefix`). */
  const CustomPrefix: string := "可"
  /** Label text written after the prefix (`custom_suffix`). */
  const CustomSuffix: string := "变"
  /** Stand-in for a country that could not be obtained. */
  const Unknown: string := "Unknown"
  const StatusOk: int := 200

  /** What the geolocation service answered for one address. */
  datatype LookupReply = LookupReply(status: int, country: Option<string>)

  /**
   * The published line for `ip`. A successful lookup gives prefix, suffix,
   * then the country ("Unknown" when the field is absent); a failed one gives
   * prefix, "Unknown", then suffix. No separator is placed between the parts.
   */
  function AnnotateLine(ip: string, reply: LookupReply): (line: string)
    ensures |line| > |ip| && line[..|ip|] == ip && line[|ip|] == '#'
  {
    if reply.status == StatusOk then
      ip + "#" + CustomPrefix + CustomSuffix + reply.country.GetOr(Unknown)
    else
      ip + "#" + CustomPrefix + Unknown + CustomSuffix
  }

  /** A line parses back, at its last '#', into the address and the label that follows it. */
  lemma LineRecoversAddress(ip: string, reply: LookupReply)
    requires reply.status == StatusOk ==> '#' !in reply.country.GetOr(Unknown)
    ensures var parsed := SplitAtLast(AnnotateLine(ip, reply), '#');
      && parsed.Some?
      && parsed.value.0 == ip
      && (reply.status == StatusOk ==> parsed.value.1 == CustomPrefix + CustomSuffix + reply.country.GetOr(Unknown))
      && (reply.status != StatusOk ==> parsed.value.1 == CustomPrefix + Unknown + CustomSuffix)
  {
    var tail := if reply.status == StatusOk
                 then CustomPrefix + CustomSuffix + reply.country.GetOr(Unknown)
                 else CustomPrefix + Unknown + CustomSuffix;
    assert AnnotateLine(ip, reply) == ip + ['#'] + tail;
    SplitAtLastJoined(ip, '#', tail);
  }

  /**
   * The two ways of not knowing the country give different lines: a
   * successful reply without a country puts the suffix before "Unknown", a
   * failed one puts it after.
   */
  lemma UnknownLabelsDiffer(ip: string, failed: int, country: Option<string>)
    requires failed != StatusOk
    ensures AnnotateLine(ip, LookupReply(StatusOk, None)) != AnnotateLine(ip, LookupReply(failed, country))
  {
    var missing := AnnotateLine(ip, LookupReply(StatusOk, None));
    var refused := AnnotateLine(ip, LookupReply(failed, country));
    assert missing[|ip| + 2] == CustomSuffix[0];
    assert refused[|ip| + 2] == Unknown[0];
  }

  /** A line holds no newline when neither the address nor the country it shows does. */
  lemma LineWithoutNewline(ip: string, reply: LookupReply)
    requires '\n' !in ip
    requires reply.status == StatusOk ==> '\n' !in reply.country.GetOr(Unknown)
    ensures '\n' !in AnnotateLine(ip, reply)
  {
  }

  /** The lines for `ips`, where `lookup(i)` is the reply to the `i`-th request. */
  function AnnotatedLines(ips: seq<string>, lookup: nat -> LookupReply): (lines: seq<string>)
  {
    seq(|ips|, i requires 0 <= i < |ips| => AnnotateLine(ips[i], lookup(i)))
  }

  /**
   * `annotate_ips`: one lookup per address, in order. `lookup(i)` is what
   * the service answers to the `i`-th request.
   */
  method AnnotateIps(ips: seq<string>, lookup: nat -> LookupReply) returns (lines: seq<string>)
    ensures |lines| == |ips|
    ensures forall i :: 0 <= i < |ips| ==> lines[i] == AnnotateLine(ips[i], lookup(i))
    ensures lines == AnnotatedLines(ips, lookup)
  {
    lines := [];
    for i := 0 to |ips|
      invariant |lines| == i
      invariant forall k :: 0 <= k < i ==> lines[k] == AnnotateLine(ips[k], lookup(k))
    {
      lines := lines + [AnnotateLine(ips[i], lookup(i))];
    }
  }
}
