/**
 * The Start/Stop monitoring button, shared by both pages: a two-state
 * machine over the `monitoring` flag and the running observer.
 */
module MonitorButton {
  import opened Wrappers
  import opened Platform

  /** The effect of one run of the button code on `(monitoring, observer)`.
      Not clicked: nothing changes. "Start Monitoring" (shown while not
      monitoring): the freshly started observer is installed and monitoring
      is on. "Stop Monitoring": the observer, if there is one, is the one
      stopped and is cleared, and monitoring is off either way. */
  predicate ButtonEffect(
    wasMonitoring: bool, oldObserver: Option<Observer>, clicked: bool, started: Observer,
    monitoring: bool, observer: Option<Observer>, stopped: Option<Observer>)
  {
    if !clicked then monitoring == wasMonitoring && observer == oldObserver && stopped == None
    else if !wasMonitoring then monitoring && observer == Some(started) && stopped == None
    else !monitoring && observer == None && stopped == oldObserver
  }
}
