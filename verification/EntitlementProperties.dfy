/** The immutable record of an entitlement. */
module Entitlements {

  datatype Option<+T> = None | Some(value: T)

  /** Points in time (`DateTimeOffset`); only their identity matters here. */
  type Time = int

  /** The claims of a token (`EntitlementTokenProperties`), which the store only hands on. */
  type TokenProperties = string

  datatype EntitlementProperties = EntitlementProperties(
    entitlementId: string,
    tokenProperties: TokenProperties,
    acquisitionEventTime: Time,
    renewalEventTimes: seq<Time>,
    releaseEventTime: Option<Time>)
  {
    static function CreateNew(id: string, token: TokenProperties, acquired: Time): EntitlementProperties {
      EntitlementProperties(id, token, acquired, [], None)
    }

    function WithRenewal(time: Time): EntitlementProperties {
      EntitlementProperties(entitlementId, tokenProperties, acquisitionEventTime,
                            renewalEventTimes + [time], releaseEventTime)
    }

    function WithRelease(time: Time): EntitlementProperties {
      EntitlementProperties(entitlementId, tokenProperties, acquisitionEventTime,
                            renewalEventTimes, Some(time))
    }

    predicate IsReleased() {
      releaseEventTime.Some?
    }
  }
}
