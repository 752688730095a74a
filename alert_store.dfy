/**
 * The single-alert store: one banner that is shown with a type and a message and dismissed
 * back to its initial state.
 */
module AlertStore {
  /** The type the banner starts with and returns to when dismissed. */
  const ResetType: string := "error"

  class AlertBanner {
    var showAlert: bool
    var alertMessage: string
    var alertType: string

    /** The state `dismissAlert` leaves: hidden, no message, type 'error'. */
    predicate IsDismissed()
      reads this
    {
      !showAlert && alertMessage == "" && alertType == ResetType
    }

    /** The store's initial refs equal the dismissed state. */
    constructor ()
      ensures IsDismissed()
    {
      showAlert := false;
      alertMessage := "";
      alertType := ResetType;
    }

    /** `displayAlert(type, message)`: overwrites whatever was shown; the timer is not modelled. */
    method DisplayAlert(kind: string, message: string)
      modifies this
      ensures showAlert && alertType == kind && alertMessage == message
    {
      showAlert := true;
      alertType := kind;
      alertMessage := message;
    }

    /** `dismissAlert()`: the same state from any state, so dismissing twice is dismissing once. */
    method DismissAlert()
      modifies this
      ensures IsDismissed()
    {
      showAlert := false;
      alertMessage := "";
      alertType := ResetType;
    }

    /** `showMaxServicesAlertWithMessage(message)`: a 'warning' alert. */
    method ShowMaxServicesAlertWithMessage(message: string)
      modifies this
      ensures showAlert && alertType == "warning" && alertMessage == message
    {
      DisplayAlert("warning", message);
    }

    /** `showWeekendAlertWithMessage(message)`: an 'error' alert. */
    method ShowWeekendAlertWithMessage(message: string)
      modifies this
      ensures showAlert && alertType == "error" && alertMessage == message
    {
      DisplayAlert("error", message);
    }
  }
}
