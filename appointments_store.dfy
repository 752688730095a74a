/**
 * The appointment store's list of selected services, which never holds two entries with the
 * same `_id`.
 */
module AppointmentsStore {
  /** A service as the frontend holds it; `_id` is compared as a string throughout. */
  datatype Offer = Offer(id: string, name: string, price: real)

  /** `services.some((selectedService) => selectedService._id === id)`. */
  function IsServiceSelected(services: seq<Offer>, id: string): (selected: bool)
    ensures selected <==> exists i :: 0 <= i < |services| && services[i].id == id
  {
    if services == [] then false
    else if services[0].id == id then true
    else
      var rest := IsServiceSelected(services[1..], id);
      assert rest <==> exists i :: 1 <= i < |services| && services[i].id == id by {
        assert forall i :: 1 <= i < |services| ==> services[i] == services[1..][i - 1];
        assert forall i :: 0 <= i < |services| - 1 ==> services[1..][i] == services[i + 1];
      }
      rest
  }

  /** No two entries share an `_id`. */
  predicate DistinctIds(services: seq<Offer>) {
    forall i, j :: 0 <= i < j < |services| ==> services[i].id != services[j].id
  }

  class Appointments {
    var services: seq<Offer>

    ghost predicate Valid()
      reads this
    {
      DistinctIds(services)
    }

    constructor ()
      ensures Valid() && services == []
    {
      services := [];
    }

    /** `onServiceSelected(service)`: push it unless an entry with its `_id` is already there. */
    method OnServiceSelected(service: Offer)
      requires Valid()
      modifies this
      ensures Valid()
      ensures IsServiceSelected(old(services), service.id) ==> services == old(services)
      ensures !IsServiceSelected(old(services), service.id) ==> services == old(services) + [service]
      ensures IsServiceSelected(services, service.id) && |services| <= |old(services)| + 1
    {
      if IsServiceSelected(services, service.id) {
        return;
      }
      services := services + [service];
      assert services[|services| - 1].id == service.id;
    }

    /** `isServiceSelected(id)` over the current list. */
    function IsSelected(id: string): (selected: bool)
      reads this
      ensures selected <==> exists i :: 0 <= i < |services| && services[i].id == id
    {
      IsServiceSelected(services, id)
    }
  }
}
