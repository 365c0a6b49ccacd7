/** DBRouterJoinPoint: the advice around every method marked for routing. It resolves the
    name of the routing attribute, reads that attribute's value from the call's arguments,
    routes on it, lets the call proceed and clears the routing context afterwards. */
module RouterJoinPoint {
  import opened JavaLang
  import opened RouterConfig
  import opened ContextHolder
  import opened HashStrategy

  // ---------------------------------------------------------------------------------
  // Key resolution

  const NoKeyMessage := "annotation DBRouter key is null！"

  /** The attribute name to route on: the annotation's key when it is not blank, the
      configured router key otherwise; an error when both are empty. The guard tests
      emptiness while the choice tests blankness, as in the source. */
  function ResolveKey(annotationKey: string, routerKey: JString): (r: Outcome<JString>)
    ensures r.Threw? <==> annotationKey == "" && IsEmpty(routerKey)
    ensures r.Threw? ==> r.error == RuntimeException(NoKeyMessage)
    ensures r.Returned? && IsNotBlank(Some(annotationKey)) ==> r.value == Some(annotationKey)
    ensures r.Returned? && !IsNotBlank(Some(annotationKey)) ==> r.value == routerKey
  {
    if IsEmpty(Some(annotationKey)) && IsEmpty(routerKey) then
      Threw(RuntimeException(NoKeyMessage))
    else if IsNotBlank(Some(annotationKey)) then
      Returned(Some(annotationKey))
    else
      Returned(routerKey)
  }

  /** The guard and the choice disagree on one case only: an annotation key made of
      whitespace with an empty configured key passes the guard, and the empty configured
      key becomes the attribute name. In every other case that gets through, the name is
      not empty. */
  lemma ResolvedKeyEmptyOnlyWhenBlank(annotationKey: string, routerKey: JString)
    requires ResolveKey(annotationKey, routerKey).Returned?
    ensures IsEmpty(ResolveKey(annotationKey, routerKey).value) <==>
      annotationKey != "" && !IsNotBlank(Some(annotationKey)) && IsEmpty(routerKey)
  {
    if IsNotBlank(Some(annotationKey)) {
      var i :| 0 <= i < |annotationKey| && !IsWhitespace(annotationKey[i]);
    }
  }

  /** A whitespace annotation key with no configured key yields a null attribute name. */
  lemma BlankAnnotationKeyWithoutDefault()
    ensures ResolveKey(" ", None) == Returned(None)
  {
    assert IsWhitespace(" "[0]);
  }

  // ---------------------------------------------------------------------------------
  // Attribute extraction

  /** An argument of the advised method: a String, a null reference, or any other object
      (told apart by an identity). */
  datatype Arg = StringArg(text: string) | NullArg | ObjectArg(id: nat)

  /** The result of BeanUtils.getProperty: the property's value (possibly null), or an
      exception, which the loop logs and swallows. */
  datatype Lookup = Found(value: JString) | Failed

  predicate NonBlankFound(l: Lookup) {
    l.Found? && IsNotBlank(l.value)
  }

  /** The lookups the loop would make, one per argument in order. */
  function Lookups(attr: JString, args: seq<Arg>, getProperty: (Arg, JString) -> Lookup): (rs: seq<Lookup>)
    ensures |rs| == |args|
    ensures forall i :: 0 <= i < |args| ==> rs[i] == getProperty(args[i], attr)
  {
    seq(|args|, i requires 0 <= i < |args| => getProperty(args[i], attr))
  }

  /** The position of the first non-blank value among the lookups, if any. */
  function FirstNonBlank(rs: seq<Lookup>): (r: Option<nat>)
    ensures r.Some? ==> r.value < |rs| && NonBlankFound(rs[r.value])
    ensures r.Some? ==> forall j :: 0 <= j < r.value ==> !NonBlankFound(rs[j])
    ensures r.None? ==> forall j :: 0 <= j < |rs| ==> !NonBlankFound(rs[j])
    decreases |rs|
  {
    if rs == [] then None
    else match FirstNonBlank(rs[..|rs| - 1])
      case Some(k) => Some(k)
      case None => if NonBlankFound(rs[|rs| - 1]) then Some(|rs| - 1) else None
  }

  /** The value of the latest successful lookup, or null when none succeeded. */
  function LastFound(rs: seq<Lookup>): JString
    decreases |rs|
  {
    if rs == [] then None
    else match rs[|rs| - 1]
      case Found(v) => v
      case Failed => LastFound(rs[..|rs| - 1])
  }

  /** What the loop leaves in its variable: the first non-blank value if there is one,
      else the latest successful value, else null. */
  function Extracted(rs: seq<Lookup>): JString {
    match FirstNonBlank(rs)
    case Some(k) => rs[k].value
    case None => LastFound(rs)
  }

  /** getAttrValue's result: a single String argument as it is; otherwise a non-blank
      value exactly when some argument's lookup found one, and null when every lookup
      failed (no arguments at all included). */
  function AttrValue(attr: JString, args: seq<Arg>, getProperty: (Arg, JString) -> Lookup): (r: JString)
    ensures |args| == 1 && args[0].StringArg? ==> r == Some(args[0].text)
    ensures !(|args| == 1 && args[0].StringArg?) ==>
      (IsNotBlank(r) <==> exists j :: 0 <= j < |args| && NonBlankFound(getProperty(args[j], attr)))
    ensures !(|args| == 1 && args[0].StringArg?) && (forall j :: 0 <= j < |args| ==> getProperty(args[j], attr).Failed?) ==>
      r == None
  {
    if |args| == 1 && args[0].StringArg? then Some(args[0].text)
    else
      var rs := Lookups(attr, args, getProperty);
      ExtractedNonBlankIff(rs);
      Extracted(rs)
  }

  /** The latest successful value is the value of some successful lookup. */
  lemma {:induction false} LastFoundIsFound(rs: seq<Lookup>)
    ensures LastFound(rs).Some? ==> exists j :: 0 <= j < |rs| && rs[j] == Found(LastFound(rs))
    decreases |rs|
  {
    if rs != [] && rs[|rs| - 1].Failed? {
      LastFoundIsFound(rs[..|rs| - 1]);
      if LastFound(rs).Some? {
        var j :| 0 <= j < |rs| - 1 && rs[..|rs| - 1][j] == Found(LastFound(rs));
        assert rs[j] == Found(LastFound(rs));
      }
    } else if rs != [] && LastFound(rs).Some? {
      assert rs[|rs| - 1] == Found(LastFound(rs));
    }
  }

  /** The extracted value is non-blank exactly when some lookup found a non-blank value;
      when no lookup succeeded at all (no arguments among them) it is null. */
  lemma ExtractedNonBlankIff(rs: seq<Lookup>)
    ensures IsNotBlank(Extracted(rs)) <==> exists j :: 0 <= j < |rs| && NonBlankFound(rs[j])
    ensures (forall j :: 0 <= j < |rs| ==> rs[j].Failed?) ==> Extracted(rs) == None
  {
    LastFoundIsFound(rs);
    if FirstNonBlank(rs).None? && LastFound(rs).Some? {
      var j :| 0 <= j < |rs| && rs[j] == Found(LastFound(rs));
      assert !NonBlankFound(rs[j]);
    }
  }

  lemma PrefixSnoc(rs: seq<Lookup>, i: nat)
    requires i < |rs|
    ensures rs[..i + 1][..i] == rs[..i] && rs[..i + 1][i] == rs[i]
  {
  }

  /** A first non-blank position found in a prefix is the first one of the whole. */
  lemma {:induction false} FirstNonBlankPrefix(rs: seq<Lookup>, i: nat)
    requires i <= |rs| && FirstNonBlank(rs[..i]).Some?
    ensures FirstNonBlank(rs) == FirstNonBlank(rs[..i])
  {
    var k := FirstNonBlank(rs[..i]).value;
    assert rs[..i][k] == rs[k];
    assert forall j :: 0 <= j < k ==> rs[..i][j] == rs[j];
  }

  /** getAttrValue. A single String argument is returned as it is, with no lookup.
      Otherwise each argument is looked up in order until one gives a non-blank value;
      the lookups counts the calls of getProperty. */
  method GetAttrValue(attr: JString, args: seq<Arg>, getProperty: (Arg, JString) -> Lookup)
    returns (value: JString, lookups: nat)
    ensures value == AttrValue(attr, args, getProperty)
    ensures |args| == 1 && args[0].StringArg? ==> lookups == 0
    ensures !(|args| == 1 && args[0].StringArg?) ==>
      lookups == match FirstNonBlank(Lookups(attr, args, getProperty))
                 case Some(k) => k + 1
                 case None => |args|
  {
    if |args| == 1 && args[0].StringArg? {
      return Some(args[0].text), 0;
    }
    ghost var rs := Lookups(attr, args, getProperty);
    value := None;
    lookups := 0;
    var i := 0;
    while i < |args|
      invariant 0 <= i <= |args| && lookups == i
      invariant value == LastFound(rs[..i])
      invariant FirstNonBlank(rs[..i]).None? || FirstNonBlank(rs[..i]) == Some(i - 1)
      invariant FirstNonBlank(rs[..i]).None? ==> !IsNotBlank(value)
    {
      if IsNotBlank(value) {
        FirstNonBlankPrefix(rs, i);
        break;
      }
      PrefixSnoc(rs, i);
      var lookup := getProperty(args[i], attr);
      if lookup.Found? {
        value := lookup.value;
      }
      lookups := lookups + 1;
      i := i + 1;
      ExtractedNonBlankIff(rs[..i]);
    }
    assert i == |args| ==> rs[..i] == rs;
  }

  // ---------------------------------------------------------------------------------
  // The advice

  class DBRouterJoinPoint {
    const config: DBRouterConfig
    const strategy: DBRouterStrategyHashCode

    constructor (config: DBRouterConfig, strategy: DBRouterStrategyHashCode)
      ensures this.config == config && this.strategy == strategy
    {
      this.config := config;
      this.strategy := strategy;
    }

    /** doRouter. proceed stands for jp.proceed(): what the advised call returns or throws,
        given the routing context it runs under. An error before proceed leaves the context
        as it was; once proceed has run, the context is cleared whatever it gave. */
    method DoRouter<V>(annotationKey: string, args: seq<Arg>,
                       getProperty: (Arg, JString) -> Lookup, proceed: Cells -> Outcome<V>)
      returns (r: Outcome<V>)
      requires ResolveKey(annotationKey, config.GetRouterKey()).Returned?
        && AttrValue(ResolveKey(annotationKey, config.GetRouterKey()).value, args, getProperty).Some?
        ==> ValidTopology(strategy.config.GetDbCount(), strategy.config.GetTbCount())
      modifies strategy.ctx
      ensures ResolveKey(annotationKey, old(config.GetRouterKey())).Threw? ==>
        r == Threw(ResolveKey(annotationKey, old(config.GetRouterKey())).error)
        && strategy.ctx.GetCells() == old(strategy.ctx.GetCells())
      ensures ResolveKey(annotationKey, old(config.GetRouterKey())).Returned? ==>
        var attr := AttrValue(ResolveKey(annotationKey, old(config.GetRouterKey())).value, args, getProperty);
        && (attr.None? ==>
              r == Threw(NullPointerException) && strategy.ctx.GetCells() == old(strategy.ctx.GetCells()))
        && (attr.Some? ==>
              r == proceed(RoutedCells(attr.value, strategy.config.GetDbCount(), strategy.config.GetTbCount()))
              && strategy.ctx.GetCells() == Absent)
    {
      var key := ResolveKey(annotationKey, config.GetRouterKey());
      if key.Threw? {
        return Threw(key.error);
      }
      var dbKeyAttr, _ := GetAttrValue(key.value, args, getProperty);
      var routed := strategy.DoRouter(dbKeyAttr);
      if routed.Raised? {
        return Threw(routed.error);
      }
      r := proceed(strategy.ctx.GetCells());
      strategy.Clear();
    }
  }
}
