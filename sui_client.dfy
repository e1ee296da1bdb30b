/** `getEventType` of backend/src/sui/client.ts; the client itself is network I/O and is not modelled. */
module SuiClient {
  import Config

  const Separator: string := "::"

  /** The fully qualified Move event type `<package>::vote::<event>`. */
  function GetEventType(packageId: string, eventName: string): (r: string)
    ensures |r| == |packageId| + |"::vote::"| + |eventName|
    ensures r[..|packageId|] == packageId
    ensures r[|packageId|..|packageId| + |"::vote::"|] == "::vote::"
    ensures r[|packageId| + |"::vote::"|..] == eventName
  {
    packageId + Separator + Config.ModuleName + Separator + eventName
  }

  /** The event name at the end of a fully qualified event type of `packageId`. */
  function EventNameOf(packageId: string, eventType: string): string
    requires |packageId| + |Separator + Config.ModuleName + Separator| <= |eventType|
  {
    eventType[|packageId| + |Separator + Config.ModuleName + Separator|..]
  }

  /** The event name is read back from the event type: the two are inverse. */
  lemma EventNameRoundTrip(packageId: string, eventName: string)
    ensures |packageId| + |Separator + Config.ModuleName + Separator| <= |GetEventType(packageId, eventName)|
    ensures EventNameOf(packageId, GetEventType(packageId, eventName)) == eventName
  {
    var infix := Separator + Config.ModuleName + Separator;
    assert GetEventType(packageId, eventName) == (packageId + infix) + eventName;
  }

  /** Distinct event names of one package have distinct event types. */
  lemma EventTypeInjective(packageId: string, a: string, b: string)
    requires a != b
    ensures GetEventType(packageId, a) != GetEventType(packageId, b)
  {
    EventNameRoundTrip(packageId, a);
    EventNameRoundTrip(packageId, b);
  }
}
