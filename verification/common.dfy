/** `update(obj, attrs)`: copy a dict of attribute values onto an object. An
    object with a `__dict__` takes them all at once; an object with only
    `__slots__` takes them one at a time, in the dict's order, and the first
    name it has no slot for raises AttributeError, leaving the earlier ones
    set. */
module Common {
  import opened Wrappers
  import Text

  /** An object's attributes, and for a slots-only object the names it has
      slots for. `repr` is how the object prints. */
  datatype Obj<V> =
    | DictObj(attrs: map<string, V>)
    | SlotsObj(slots: set<string>, attrs: map<string, V>, repr: string)

  /** The AttributeError raised for a name the object refuses; `reason` is
      the text of the error `setattr` raised. */
  datatype Failure = AttributeError(key: string, message: string)

  function CannotSetMessage(key: string, repr: string, reason: string): (m: string)
    ensures Text.Contains(m, "'" + key + "'")
  {
    var m := "Cannot set attribute '" + key + "' on object '" + repr + "': " + reason;
    assert m == "Cannot set attribute " + ("'" + key + "'" + (" on object '" + repr + "': " + reason));
    ContainsMiddle("Cannot set attribute ", "'" + key + "'", " on object '" + repr + "': " + reason);
    m
  }

  lemma {:induction false} ContainsMiddle(a: string, b: string, c: string)
    ensures Text.Contains(a + (b + c), b)
    decreases |a|
  {
    if |a| > 0 {
      assert (a + (b + c))[1..] == a[1..] + (b + c);
      ContainsMiddle(a[1..], b, c);
    } else {
      assert a + (b + c) == b + c;
    }
  }

  /** The names of a dict given as its items in order. */
  function Keys<V>(pairs: seq<(string, V)>): set<string>
  {
    set i | 0 <= i < |pairs| :: pairs[i].0
  }

  /** A dict's keys are distinct. */
  predicate DistinctKeys<V>(pairs: seq<(string, V)>)
  {
    forall i, j | 0 <= i < j < |pairs| :: pairs[i].0 != pairs[j].0
  }

  /** Setting the items one after another. */
  function Overlay<V>(m: map<string, V>, pairs: seq<(string, V)>): (r: map<string, V>)
    requires DistinctKeys(pairs)
    ensures forall k :: k in r <==> k in m || k in Keys(pairs)
    ensures forall i | 0 <= i < |pairs| :: pairs[i].0 in r && r[pairs[i].0] == pairs[i].1
    ensures forall k | k in m && k !in Keys(pairs) :: r[k] == m[k]
    decreases |pairs|
  {
    if |pairs| == 0 then m
    else
      var r := Overlay(m[pairs[0].0 := pairs[0].1], pairs[1..]);
      assert forall i | 1 <= i < |pairs| :: pairs[i] == pairs[1..][i - 1];
      assert Keys(pairs) == {pairs[0].0} + Keys(pairs[1..]) by {
        forall k | k in Keys(pairs) ensures k in {pairs[0].0} + Keys(pairs[1..]) {
          var i :| 0 <= i < |pairs| && pairs[i].0 == k;
          if i > 0 {
            assert pairs[1..][i - 1].0 == k;
          }
        }
      }
      r
  }

  /** The index of the first name not among the slots, if any. */
  function FirstRefused<V>(slots: set<string>, pairs: seq<(string, V)>): (r: Option<nat>)
    ensures r.Some? ==> r.value < |pairs| && pairs[r.value].0 !in slots
    ensures r.Some? ==> forall j | 0 <= j < r.value :: pairs[j].0 in slots
    ensures r.None? ==> forall j | 0 <= j < |pairs| :: pairs[j].0 in slots
  {
    if |pairs| == 0 then None
    else if pairs[0].0 !in slots then Some(0)
    else
      var r := FirstRefused(slots, pairs[1..]);
      if r.Some? then Some(r.value + 1) else None
  }

  /** `update(obj, attrs)`: the object afterwards, and the error raised, if
      any. `reason` gives the text of the error `setattr` raises for a name. */
  function Update<V>(obj: Obj<V>, attrs: seq<(string, V)>, reason: string -> string): (r: (Obj<V>, Option<Failure>))
    requires DistinctKeys(attrs)
    ensures r.0.DictObj? == obj.DictObj?
    ensures obj.SlotsObj? ==> r.0.slots == obj.slots && r.0.repr == obj.repr
    ensures r.1.Some? ==> obj.SlotsObj? && r.1.value.key !in obj.slots && r.1.value.key in Keys(attrs)
    ensures forall k | k in obj.attrs :: k in r.0.attrs
  {
    match obj
    case DictObj(m) => (DictObj(Overlay(m, attrs)), None)
    case SlotsObj(slots, m, repr) =>
      match FirstRefused(slots, attrs)
      case None => (SlotsObj(slots, Overlay(m, attrs), repr), None)
      case Some(k) =>
        var key := attrs[k].0;
        (SlotsObj(slots, Overlay(m, attrs[..k]), repr),
         Some(AttributeError(key, CannotSetMessage(key, repr, reason(key)))))
  }

  /** On an object with a `__dict__` every given name takes its new value,
      replacing an old one, every other attribute keeps its value, and
      nothing is raised. */
  lemma DictObjectUpdate<V>(m: map<string, V>, attrs: seq<(string, V)>, reason: string -> string)
    requires DistinctKeys(attrs)
    ensures var (o, err) := Update(DictObj(m), attrs, reason);
            && err.None? && o.DictObj?
            && (forall i | 0 <= i < |attrs| :: attrs[i].0 in o.attrs && o.attrs[attrs[i].0] == attrs[i].1)
            && (forall k | k in m && k !in Keys(attrs) :: k in o.attrs && o.attrs[k] == m[k])
            && (forall k | k in o.attrs :: k in m || k in Keys(attrs))
  {
  }

  /** On a slots-only object the update succeeds exactly when every name
      has a slot, and then every name takes its value; either way an
      attribute not named keeps its value and no other attribute appears. */
  lemma SlotsObjectUpdate<V>(slots: set<string>, m: map<string, V>, repr: string,
                             attrs: seq<(string, V)>, reason: string -> string)
    requires DistinctKeys(attrs)
    ensures var (o, err) := Update(SlotsObj(slots, m, repr), attrs, reason);
            && (err.None? <==> forall i | 0 <= i < |attrs| :: attrs[i].0 in slots)
            && (err.None? ==> forall i | 0 <= i < |attrs| :: attrs[i].0 in o.attrs && o.attrs[attrs[i].0] == attrs[i].1)
            && (forall k | k in m && k !in Keys(attrs) :: k in o.attrs && o.attrs[k] == m[k])
            && (forall k | k in o.attrs :: k in m || k in Keys(attrs))
  {
  }

  /** When a name has no slot, the error names it, it is the first such name,
      the names before it stay set (there is no rollback), that name and
      every later one are left as they were, and so is every attribute not
      named. */
  lemma SlotsObjectRefusal<V>(slots: set<string>, m: map<string, V>, repr: string,
                              attrs: seq<(string, V)>, reason: string -> string, k: nat)
    requires DistinctKeys(attrs)
    requires k < |attrs| && attrs[k].0 !in slots
    requires forall j | 0 <= j < k :: attrs[j].0 in slots
    ensures var (o, err) := Update(SlotsObj(slots, m, repr), attrs, reason);
            && err == Some(AttributeError(attrs[k].0, CannotSetMessage(attrs[k].0, repr, reason(attrs[k].0))))
            && Text.Contains(err.value.message, "'" + attrs[k].0 + "'")
            && (forall j | 0 <= j < k :: attrs[j].0 in o.attrs && o.attrs[attrs[j].0] == attrs[j].1)
            && (forall j | k <= j < |attrs| ::
                  (attrs[j].0 in o.attrs <==> attrs[j].0 in m) &&
                  (attrs[j].0 in m ==> o.attrs[attrs[j].0] == m[attrs[j].0]))
            && (forall n | n in m && n !in Keys(attrs) :: n in o.attrs && o.attrs[n] == m[n])
            && (forall n | n in o.attrs :: n in m || n in Keys(attrs))
  {
    assert FirstRefused(slots, attrs) == Some(k);
    var prefix := attrs[..k];
    assert DistinctKeys(prefix);
    forall j | k <= j < |attrs|
      ensures attrs[j].0 !in Keys(prefix)
    {
      assert forall i | 0 <= i < |prefix| :: prefix[i].0 != attrs[j].0;
    }
    forall j | 0 <= j < k
      ensures attrs[j].0 in Overlay(m, prefix) && Overlay(m, prefix)[attrs[j].0] == attrs[j].1
    {
      assert prefix[j] == attrs[j];
    }
  }
}
