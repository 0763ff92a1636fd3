/** The entitlement store as a class, with the dictionary as a field and records as objects that are
    compared by reference. A call runs here without interference; StoreProtocol interleaves them. */
module Store {
  import opened Entitlements

  datatype Result = Ok(value: Record) | Error(message: string)

  /** A record as an object. */
  class Record {
    const props: EntitlementProperties

    constructor (props: EntitlementProperties)
      ensures this.props == props
    {
      this.props := props;
    }
  }

  /** What no update of a record changes. */
  predicate SameIdentity(before: EntitlementProperties, after: EntitlementProperties) {
    && after.entitlementId == before.entitlementId && after.tokenProperties == before.tokenProperties
    && after.acquisitionEventTime == before.acquisitionEventTime
  }

  class EntitlementStore {
    var entitlements: map<string, Record>

    /** The records by id, without their identity. */
    ghost function View(): map<string, EntitlementProperties>
      reads this
    {
      map id | id in entitlements :: entitlements[id].props
    }

    ghost predicate Valid()
      reads this
    {
      forall id | id in entitlements :: entitlements[id].props.entitlementId == id
    }

    constructor ()
      ensures Valid() && View() == map[]
    {
      entitlements := map[];
    }

    /** `ConcurrentDictionary.TryUpdate`: compares objects, not contents. */
    method Swap(id: string, replacement: Record, comparison: Record) returns (ok: bool)
      modifies this
      ensures ok <==> id in old(entitlements) && old(entitlements)[id] == comparison
      ensures entitlements == if ok then old(entitlements)[id := replacement] else old(entitlements)
    {
      ok := id in entitlements && entitlements[id] == comparison;
      if ok {
        entitlements := entitlements[id := replacement];
      }
    }

    /** `ConcurrentDictionary.AddOrUpdate` with an update function that keeps the value. */
    method AddOrKeep(id: string, added: Record) returns (r: Record)
      modifies this
      ensures id in entitlements && r == entitlements[id]
      ensures entitlements == if id in old(entitlements) then old(entitlements) else old(entitlements)[id := added]
    {
      if id !in entitlements {
        entitlements := entitlements[id := added];
      }
      r := entitlements[id];
    }

    method StoreEntitlement(id: string, token: TokenProperties, acquired: Time) returns (r: Record)
      requires Valid()
      modifies this
      ensures Valid() && id in View() && r.props == View()[id]
      ensures id in old(View()) ==> r == old(entitlements)[id] && View() == old(View())
      ensures id !in old(View()) ==>
                && View() == old(View())[id := r.props]
                && r.props.entitlementId == id && r.props.tokenProperties == token
                && r.props.acquisitionEventTime == acquired
                && r.props.renewalEventTimes == [] && r.props.releaseEventTime == None
    {
      var added := new Record(EntitlementProperties.CreateNew(id, token, acquired));
      r := AddOrKeep(id, added);
    }

    method FindEntitlement(id: string) returns (r: Result)
      ensures r.Ok? <==> id in View()
      ensures r.Ok? ==> r.value == entitlements[id]
      ensures r.Error? ==> r.message == "Entitlement " + id + " not found."
    {
      if id !in entitlements {
        return Error("Entitlement " + id + " not found.");
      }
      return Ok(entitlements[id]);
    }

    method RenewEntitlement(id: string, time: Time) returns (r: Result)
      requires Valid()
      modifies this
      ensures Valid() && (r.Ok? <==> id in old(View()))
      ensures r.Ok? ==>
                var before, after := old(View())[id], r.value.props;
                && SameIdentity(before, after) && after.releaseEventTime == before.releaseEventTime
                && after.renewalEventTimes == before.renewalEventTimes + [time]
      ensures r.Error? ==> r.message == "Unable to store renewal event for " + id
      ensures View() == if r.Ok? then old(View())[id := r.value.props] else old(View())
    {
      r := TryUpdate(id, (props: EntitlementProperties) => props.WithRenewal(time),
                     "Unable to store renewal event for " + id);
    }

    method ReleaseEntitlement(id: string, time: Time) returns (r: Result)
      requires Valid()
      modifies this
      ensures Valid() && (r.Ok? <==> id in old(View()))
      ensures r.Ok? ==>
                var before, after := old(View())[id], r.value.props;
                && SameIdentity(before, after) && after.renewalEventTimes == before.renewalEventTimes
                && after.releaseEventTime == Some(time)
      ensures r.Error? ==> r.message == "Unable to store release event for " + id
      ensures View() == if r.Ok? then old(View())[id := r.value.props] else old(View())
    {
      r := TryUpdate(id, (props: EntitlementProperties) => props.WithRelease(time),
                     "Unable to store release event for " + id);
    }

    method TryUpdate(id: string, updater: EntitlementProperties -> EntitlementProperties, message: string)
      returns (r: Result)
      requires Valid()
      requires forall p :: updater(p).entitlementId == p.entitlementId
      modifies this
      ensures Valid() && (r.Ok? <==> id in old(View()))
      ensures r.Ok? ==> r.value.props == updater(old(View())[id])
      ensures r.Error? ==> r.message == message
      ensures View() == if r.Ok? then old(View())[id := r.value.props] else old(View())
    {
      if id in entitlements {
        var current := entitlements[id];
        var updated := new Record(updater(current.props));
        var swapped := Swap(id, updated, current);
        if swapped {
          return Ok(updated);
        }
      }
      return Error(message);
    }
  }
}
