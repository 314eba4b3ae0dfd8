/** The ValidateKey node of the snewpdag alert DAG: a gate that lets an event
    through only when its payload carries a required field, switched on
    separately for each lifecycle action. An action whose switch is off is
    always consumed. */
module ValidateKeyGate {

  /** The node's configuration: the required field and one switch per
      lifecycle action. */
  datatype ValidateKey = ValidateKey(inField: string, onAlert: bool, onReset: bool, onRevoke: bool, onReport: bool)

  /** The keyword arguments the node takes for itself. */
  const GateOptions: set<string> := {"on_alert", "on_reset", "on_revoke", "on_report"}

  /** Whether a switch is on: an option left out defaults to None, which is
      falsy; a given one is on when its value is truthy. */
  function Switch<V>(kwargs: map<string, V>, truthy: V -> bool, key: string): bool
  {
    key in kwargs && truthy(kwargs[key])
  }

  /** __init__: the four switches are popped from the keyword arguments, and
      what is left, of any value type, goes to the node base. truthy stands
      for Python's truth test on the popped values. */
  function Configure<V>(inField: string, kwargs: map<string, V>, truthy: V -> bool): (r: (ValidateKey, map<string, V>))
    ensures r.0.inField == inField
    ensures r.0.onAlert <==> "on_alert" in kwargs && truthy(kwargs["on_alert"])
    ensures r.0.onReset <==> "on_reset" in kwargs && truthy(kwargs["on_reset"])
    ensures r.0.onRevoke <==> "on_revoke" in kwargs && truthy(kwargs["on_revoke"])
    ensures r.0.onReport <==> "on_report" in kwargs && truthy(kwargs["on_report"])
    ensures r.1.Keys == kwargs.Keys - GateOptions
    ensures forall k :: k in r.1 ==> r.1[k] == kwargs[k]
  {
    (ValidateKey(inField, Switch(kwargs, truthy, "on_alert"), Switch(kwargs, truthy, "on_reset"),
                 Switch(kwargs, truthy, "on_revoke"), Switch(kwargs, truthy, "on_report")),
     kwargs - GateOptions)
  }

  /** check_key: the required field is present in the payload. */
  function CheckKey<V>(g: ValidateKey, data: map<string, V>): (r: bool)
    ensures r <==> g.inField in data
  {
    g.inField in data
  }

  /** alert: passes only when alerts are gated and the field is present. */
  function Alert<V>(g: ValidateKey, data: map<string, V>): (r: bool)
    ensures r <==> g.onAlert && g.inField in data
  {
    if g.onAlert then CheckKey(g, data) else false
  }

  /** revoke: passes only when revocations are gated and the field is present. */
  function Revoke<V>(g: ValidateKey, data: map<string, V>): (r: bool)
    ensures r <==> g.onRevoke && g.inField in data
  {
    if g.onRevoke then CheckKey(g, data) else false
  }

  /** reset: passes only when resets are gated and the field is present. */
  function Reset<V>(g: ValidateKey, data: map<string, V>): (r: bool)
    ensures r <==> g.onReset && g.inField in data
  {
    if g.onReset then CheckKey(g, data) else false
  }

  /** report: passes only when reports are gated and the field is present. */
  function Report<V>(g: ValidateKey, data: map<string, V>): (r: bool)
    ensures r <==> g.onReport && g.inField in data
  {
    if g.onReport then CheckKey(g, data) else false
  }

  /** Each handler consults its own switch only: two gates that agree on the
      field and on one switch give the same answer for that action, whatever
      their other switches. */
  lemma OwnSwitchOnly<V>(g: ValidateKey, g': ValidateKey, data: map<string, V>)
    requires g.inField == g'.inField
    ensures g.onAlert == g'.onAlert ==> Alert(g, data) == Alert(g', data)
    ensures g.onRevoke == g'.onRevoke ==> Revoke(g, data) == Revoke(g', data)
    ensures g.onReset == g'.onReset ==> Reset(g, data) == Reset(g', data)
    ensures g.onReport == g'.onReport ==> Report(g, data) == Report(g', data)
  {
  }

  /** The answers depend on the payload only through its set of keys. */
  lemma KeysDecide<V, W>(g: ValidateKey, data: map<string, V>, data': map<string, W>)
    requires data.Keys == data'.Keys
    ensures CheckKey(g, data) == CheckKey(g, data')
    ensures Alert(g, data) == Alert(g, data') && Revoke(g, data) == Revoke(g, data')
    ensures Reset(g, data) == Reset(g, data') && Report(g, data) == Report(g, data')
  {
    assert g.inField in data <==> g.inField in data.Keys;
  }

  /** A gate configured only for alerts on "energy": an alert without that
      field is consumed, and a revocation is consumed whatever it carries. */
  lemma EnergyGateExample<V>(data: map<string, V>)
    ensures var (g, _) := Configure("energy", map["on_alert" := true], (b: bool) => b);
      (!("energy" in data) ==> !Alert(g, data)) && !Revoke(g, data)
  {
  }
}
