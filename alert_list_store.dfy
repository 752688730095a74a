/**
 * The alert-list store: alerts pushed with ids taken from a counter, and dismissed by id.
 */
module AlertListStore {
  import opened Wrappers

  datatype Alert = Alert(id: nat, message: string, kind: string)

  /** The `type` a caller who passes none gets. */
  const DefaultType: string := "default"

  /** `alerts.filter((alert) => alert.id !== id)`. */
  function Without(alerts: seq<Alert>, id: nat): (r: seq<Alert>)
    ensures |r| <= |alerts|
    ensures forall a :: a in r <==> a in alerts && a.id != id
  {
    if alerts == [] then []
    else
      assert forall a :: a in alerts <==> a == alerts[0] || a in alerts[1..];
      (if alerts[0].id == id then [] else [alerts[0]]) + Without(alerts[1..], id)
  }

  /** The ids of the list, in list order, rise strictly. */
  predicate IdsIncreasing(alerts: seq<Alert>) {
    forall i, j :: 0 <= i < j < |alerts| ==> alerts[i].id < alerts[j].id
  }

  /** Filtering distributes over concatenation: the entries kept stay in their order. */
  lemma {:induction false} WithoutAppend(a: seq<Alert>, b: seq<Alert>, id: nat)
    ensures Without(a + b, id) == Without(a, id) + Without(b, id)
  {
    if a != [] {
      assert (a + b)[1..] == a[1..] + b;
      WithoutAppend(a[1..], b, id);
    } else {
      assert a + b == b;
    }
  }

  /** Dismissing an id no alert carries changes nothing. */
  lemma {:induction false} WithoutAbsent(alerts: seq<Alert>, id: nat)
    requires forall i :: 0 <= i < |alerts| ==> alerts[i].id != id
    ensures Without(alerts, id) == alerts
  {
    if alerts != [] {
      WithoutAbsent(alerts[1..], id);
      assert [alerts[0]] + alerts[1..] == alerts;
    }
  }

  /** Dismissing the same id twice is dismissing it once. */
  lemma WithoutIdempotent(alerts: seq<Alert>, id: nat)
    ensures Without(Without(alerts, id), id) == Without(alerts, id)
  {
    var r := Without(alerts, id);
    forall i | 0 <= i < |r| ensures r[i].id != id {
      assert r[i] in r;
    }
    WithoutAbsent(r, id);
  }

  /** In a rising list every later entry has a larger id than the head. */
  lemma HeadBelowTail(alerts: seq<Alert>)
    requires alerts != [] && IdsIncreasing(alerts)
    ensures forall a :: a in alerts[1..] ==> alerts[0].id < a.id
  {
    forall a | a in alerts[1..] ensures alerts[0].id < a.id {
      var j :| 0 <= j < |alerts[1..]| && alerts[1..][j] == a;
      assert alerts[j + 1] == a;
    }
  }

  /** A head below every entry of a rising list keeps it rising. */
  lemma ConsIncreasing(x: Alert, rest: seq<Alert>)
    requires IdsIncreasing(rest) && forall a :: a in rest ==> x.id < a.id
    ensures IdsIncreasing([x] + rest)
  {
    var r := [x] + rest;
    forall i, j | 0 <= i < j < |r| ensures r[i].id < r[j].id {
      assert r[j] == rest[j - 1];
      if i == 0 {
        assert rest[j - 1] in rest;
      } else {
        assert r[i] == rest[i - 1];
      }
    }
  }

  /** Dismissing keeps the ids rising. */
  lemma {:induction false} WithoutKeepsOrder(alerts: seq<Alert>, id: nat)
    requires IdsIncreasing(alerts)
    ensures IdsIncreasing(Without(alerts, id))
  {
    if alerts != [] {
      assert IdsIncreasing(alerts[1..]);
      WithoutKeepsOrder(alerts[1..], id);
      if alerts[0].id != id {
        HeadBelowTail(alerts);
        ConsIncreasing(alerts[0], Without(alerts[1..], id));
      }
    }
  }

  /** An alert shown and then dismissed by its id leaves the list as it was. */
  lemma ShowThenDismiss(alerts: seq<Alert>, counter: nat, message: string, kind: string)
    requires forall i :: 0 <= i < |alerts| ==> alerts[i].id < counter
    ensures Without(alerts + [Alert(counter, message, kind)], counter) == alerts
  {
    WithoutAppend(alerts, [Alert(counter, message, kind)], counter);
    WithoutAbsent(alerts, counter);
  }

  class AlertList {
    var alerts: seq<Alert>
    var alertIdCounter: nat

    /** Ids rise along the list and stay below the counter, so every id is unique. */
    ghost predicate Valid()
      reads this
    {
      IdsIncreasing(alerts) && forall i :: 0 <= i < |alerts| ==> alerts[i].id < alertIdCounter
    }

    constructor ()
      ensures Valid() && alerts == [] && alertIdCounter == 0
    {
      alerts := [];
      alertIdCounter := 0;
    }

    /** `showAlert(message, type = 'default')`: the automatic dismissal timer is not modelled. */
    method ShowAlert(message: string, kind: Option<string>)
      requires Valid()
      modifies this
      ensures Valid()
      ensures alertIdCounter == old(alertIdCounter) + 1
      ensures alerts == old(alerts) + [Alert(old(alertIdCounter), message, kind.GetOr(DefaultType))]
    {
      var id := alertIdCounter;
      alertIdCounter := alertIdCounter + 1;
      alerts := alerts + [Alert(id, message, kind.GetOr(DefaultType))];
    }

    /** `dismissAlert(id)`. */
    method DismissAlert(id: nat)
      requires Valid()
      modifies this
      ensures Valid()
      ensures alerts == Without(old(alerts), id) && alertIdCounter == old(alertIdCounter)
    {
      WithoutKeepsOrder(alerts, id);
      alerts := Without(alerts, id);
    }
  }
}
