/**
 * Dashboard configurations, packages/dashboards/src (api.ts, layout.ts,
 * dashboardModel.ts, dashboardVisibility.ts, schema.ts): what loading a saved
 * configuration changes, and what it must leave alone.
 */
module Dashboards {
  import opened Common

  // ---- Configurations ---------------------------------------------------

  /** Numbers are exact; NaN and the infinities are one value that is not finite. */
  datatype Num = Finite(value: real) | NotFinite

  datatype Layout = Layout(x: Num, y: Num, w: Num, h: Num)

  datatype ComponentType = Custom | Sensor | Chart | Battery | Charging | Table

  /** A lookup in an object literal can also find a member that every object inherits. */
  datatype DefinitionId = Name(text: string) | InheritedMember

  datatype Value = Text(text: string) | Flag(flag: bool) | Other(code: int)

  datatype Connection = Plugged | Unplugged

  datatype RuleType = VehicleConnection

  datatype Rule = Rule(kind: RuleType, value: Connection)

  datatype Widget = Widget(
    id: string,
    componentType: ComponentType,
    definitionId: DefinitionId,
    title: Option<string>,
    layout: Layout,
    options: Option<map<string, Value>>,
    visibility: Option<seq<Rule>>)

  datatype Config = Config(id: string, slug: string, name: string, widgets: seq<Widget>)

  datatype Result<+T> = Ok(value: T) | SchemaError {
    predicate IsFailure() { SchemaError? }

    function PropagateFailure<U>(): Result<U>
      requires SchemaError?
    {
      SchemaError
    }

    function Extract(): T
      requires Ok?
    {
      value
    }
  }

  datatype Size = Size(w: int, h: int)

  datatype WidgetDef = WidgetDef(defaultSize: Size, minSize: Size, maxSize: Option<Size>, fixedSize: bool)

  type Registry = map<(ComponentType, DefinitionId), WidgetDef>

  const COLS := 12
  const MAX_SAFE_INTEGER := 9007199254740991
  const LEGACY_VISIBILITY := "chargingConnectionVisibility"

  function Int(n: int): Num {
    Finite(n as real)
  }

  function Map(ws: seq<Widget>, f: Widget -> Widget): (r: seq<Widget>)
    ensures |r| == |ws| && forall i :: 0 <= i < |ws| ==> r[i] == f(ws[i])
  {
    seq(|ws|, i requires 0 <= i < |ws| => f(ws[i]))
  }

  // ---- Schema -----------------------------------------------------------

  predicate IsIntBetween(n: Num, min: int, max: int) {
    n.Finite? && n.value == n.value.Floor as real && min <= n.value.Floor <= max
  }

  predicate LayoutMeetsSchema(l: Layout) {
    && IsIntBetween(l.x, 0, 11)
    && IsIntBetween(l.y, 0, MAX_SAFE_INTEGER)
    && IsIntBetween(l.w, 1, 12)
    && IsIntBetween(l.h, 1, MAX_SAFE_INTEGER)
  }

  predicate MeetsSchema(w: Widget) {
    w.definitionId.Name? && w.definitionId.text != "" && LayoutMeetsSchema(w.layout)
  }

  function Parse(c: Config): Result<Config> {
    if forall w :: w in c.widgets ==> MeetsSchema(w) then Ok(c) else SchemaError
  }

  // ---- layout.ts --------------------------------------------------------

  function Min(a: int, b: int): int { if a <= b then a else b }

  function Max(a: int, b: int): int { if a <= b then b else a }

  /** Math.round: halves go up, also below zero. */
  function Round(x: real): int {
    (x + 0.5).Floor
  }

  function ClampInt(n: Num, min: int, max: int): int {
    Min(max, Max(min, if n.Finite? then Round(n.value) else min))
  }

  function SanitizeWidgetLayout(l: Layout, minSize: Size, maxSize: Option<Size>): Layout {
    var maxW := if maxSize.Some? then maxSize.value.w else COLS;
    var maxH := if maxSize.Some? then maxSize.value.h else MAX_SAFE_INTEGER;
    var w := ClampInt(l.w, minSize.w, Min(maxW, COLS));
    var h := ClampInt(l.h, minSize.h, maxH);
    var x := ClampInt(l.x, 0, Max(0, COLS - w));
    var y := Max(0, if l.y.Finite? then Round(l.y.value) else 0);
    Layout(Int(x), Int(y), Int(w), Int(h))
  }

  /** The definition, or the sizes used for widgets that are not registered. */
  function DefinitionOf(reg: Registry, w: Widget): WidgetDef {
    if (w.componentType, w.definitionId) in reg then reg[(w.componentType, w.definitionId)]
    else WidgetDef(Size(3, 2), Size(1, 1), None, false)
  }

  /** A fixed widget takes its default size, which then also is its smallest and largest one. */
  function SanitizeWidget(reg: Registry, w: Widget): Widget {
    var def := DefinitionOf(reg, w);
    if def.fixedSize then
      var target := w.layout.(w := Int(def.defaultSize.w), h := Int(def.defaultSize.h));
      w.(layout := SanitizeWidgetLayout(target, def.defaultSize, Some(def.defaultSize)))
    else
      w.(layout := SanitizeWidgetLayout(w.layout, def.minSize, def.maxSize))
  }

  function SanitizeDashboardConfig(reg: Registry, c: Config): Result<Config> {
    var parsed :- Parse(c);
    Ok(parsed.(widgets := Map(parsed.widgets, w => SanitizeWidget(reg, w))))
  }

  // ---- dashboardVisibility.ts -------------------------------------------

  /** The connection rule of configurations older than typed rules. */
  function LegacyConnection(w: Widget): Option<Connection> {
    if w.options.None? || LEGACY_VISIBILITY !in w.options.value then None
    else
      match w.options.value[LEGACY_VISIBILITY]
      case Text(t) => if t == "plugged" then Some(Plugged) else if t == "unplugged" then Some(Unplugged) else None
      case _ => None
  }

  function VisibilityRules(w: Widget): seq<Rule> {
    if w.visibility.Some? && w.visibility.value != [] then w.visibility.value
    else if LegacyConnection(w).Some? then [Rule(VehicleConnection, LegacyConnection(w).value)]
    else []
  }

  predicate IsVisible(w: Widget, state: Connection) {
    forall rule :: rule in VisibilityRules(w) ==> rule.value == state
  }

  function SetVehicleConnectionVisibility(w: Widget, value: Option<Connection>): Widget {
    var remaining := Filter(VisibilityRules(w), (rule: Rule) => rule.kind != VehicleConnection);
    var visibility := remaining + (if value.Some? then [Rule(VehicleConnection, value.value)] else []);
    w.(visibility := if visibility == [] then None else Some(visibility))
  }

  function MigrateLegacyVisibility(w: Widget): Widget {
    if LegacyConnection(w).None? then w
    else
      var migrated :=
        if w.visibility.Some? && w.visibility.value != [] then w
        else SetVehicleConnectionVisibility(w, LegacyConnection(w));
      migrated.(options := Some(w.options.value - {LEGACY_VISIBILITY}))
  }

  // ---- api.ts -----------------------------------------------------------

  const TRIP_SENSORS := {"trip_miles", "total_trips", "avg_efficiency", "avg_trip_duration"}

  /** Members of Object.prototype. */
  const INHERITED := {
    "constructor", "hasOwnProperty", "isPrototypeOf", "propertyIsEnumerable", "toLocaleString", "toString", "valueOf",
    "__defineGetter__", "__defineSetter__", "__lookupGetter__", "__lookupSetter__", "__proto__"
  }

  function LegacyTripStatToSensor(stat: string): Option<DefinitionId> {
    match stat
    case "miles" => Some(Name("trip_miles"))
    case "count" => Some(Name("total_trips"))
    case "efficiency" => Some(Name("avg_efficiency"))
    case "duration" => Some(Name("avg_trip_duration"))
    case _ => if stat in INHERITED then Some(InheritedMember) else None
  }

  function OptionsOf(w: Widget): map<string, Value> {
    if w.options.Some? then w.options.value else map[]
  }

  predicate HasText(options: map<string, Value>, key: string) {
    key in options && options[key].Text?
  }

  function TripSensorOf(options: map<string, Value>): Option<DefinitionId> {
    if HasText(options, "metric") && options["metric"].text in TRIP_SENSORS then Some(Name(options["metric"].text))
    else if HasText(options, "stat") then LegacyTripStatToSensor(options["stat"].text)
    else None
  }

  predicate IsTripStat(w: Widget) {
    w.componentType == Custom && w.definitionId == Name("trips.stat")
  }

  function SensorOptions(options: map<string, Value>, id: DefinitionId): map<string, Value> {
    var kept := options - {"stat", "metric"};
    var metric := if id.Name? then Text(id.text) else Other(0);
    var mode :=
      if id == Name("trip_miles") || id == Name("total_trips") then map["valueMode" := Text("sum")]
      else if id == Name("avg_trip_duration") then map["valueMode" := Text("avg")]
      else map[];
    kept + map["metric" := metric] + mode + map["tripSelectionAware" := Flag(true)]
  }

  function NormalizeTripStat(w: Widget): Widget {
    if !IsTripStat(w) then w
    else
      var id := TripSensorOf(OptionsOf(w));
      if id.None? then w
      else
        w.(componentType := Sensor,
           definitionId := id.value,
           options := Some(SensorOptions(OptionsOf(w), id.value)))
  }

  predicate IsNetworkBreakdown(w: Widget) {
    w.componentType == Custom && w.definitionId == Name("charging.network_breakdown")
  }

  function ClampBreakdownHeight(h: Num): int {
    if h.NotFinite? then 20 else Max(1, Min(20, Round(h.value)))
  }

  function NormalizeBreakdownHeight(w: Widget): Widget {
    if !IsNetworkBreakdown(w) then w
    else
      var h := Int(ClampBreakdownHeight(w.layout.h));
      if h == w.layout.h then w else w.(layout := w.layout.(h := h))
  }

  /** normalizeDashboardConfig, from the merged record on. */
  function NormalizeDashboardConfig(reg: Registry, c: Config): Result<Config> {
    var parsed :- Parse(c);
    var resized :=
      if parsed.slug == "charging" then Map(parsed.widgets, w => NormalizeBreakdownHeight(w)) else parsed.widgets;
    var migrated := Map(Map(resized, w => NormalizeTripStat(w)), w => MigrateLegacyVisibility(w));
    SanitizeDashboardConfig(reg, parsed.(widgets := migrated))
  }

  // ---- dashboardModel.ts ------------------------------------------------

  datatype Patch = Patch(i: string, x: Num, y: Num, w: Num, h: Num)

  /** new Map over the patches: of two with one id the later wins. */
  function PatchFor(patches: seq<Patch>, id: string): Option<Patch> {
    if patches == [] then None
    else if patches[|patches| - 1].i == id then Some(patches[|patches| - 1])
    else PatchFor(patches[..|patches| - 1], id)
  }

  function Candidate(reg: Registry, w: Widget, p: Patch): Widget {
    SanitizeWidget(reg, w.(layout := SanitizeWidgetLayout(Layout(p.x, p.y, p.w, p.h), Size(1, 1), None)))
  }

  function Patched(reg: Registry, patches: seq<Patch>, w: Widget): Widget {
    var p := PatchFor(patches, w.id);
    if p.None? || Candidate(reg, w, p.value).layout == w.layout then w else Candidate(reg, w, p.value)
  }

  predicate Moves(reg: Registry, patches: seq<Patch>, w: Widget) {
    var p := PatchFor(patches, w.id);
    p.Some? && Candidate(reg, w, p.value).layout != w.layout
  }

  /** The widgets, and whether the source hands out a new list. */
  function ApplyWidgetLayout(reg: Registry, ws: seq<Widget>, patches: seq<Patch>): (seq<Widget>, bool) {
    var changed := exists w :: w in ws && Moves(reg, patches, w);
    (if changed then Map(ws, w => Patched(reg, patches, w)) else ws, changed)
  }

  predicate IsChargingMix(w: Widget, home: bool) {
    || (w.componentType == Charging && w.definitionId == Name(if home then "home_share" else "dc_share"))
    || (w.componentType == Sensor
        && w.definitionId == Name(if home then "charging_home_share" else "charging_dc_share"))
  }

  function Expand(w: Widget): Widget {
    if IsChargingMix(w, true) then w.(layout := w.layout.(x := Int(0), w := Int(6)))
    else if IsChargingMix(w, false) then w.(layout := w.layout.(x := Int(6), w := Int(6)))
    else w
  }

  function ResolveDashboardViewWidgets(ws: seq<Widget>, state: Connection): seq<Widget> {
    var visible := Filter(ws, (w: Widget) => IsVisible(w, state));
    if state == Plugged then visible else Map(visible, w => Expand(w))
  }

  function Ids(ws: seq<Widget>): seq<string> {
    seq(|ws|, i requires 0 <= i < |ws| => ws[i].id)
  }

  // ---- Clamping ---------------------------------------------------------

  function Distance(x: real, n: int): real {
    if x <= n as real then n as real - x else x - n as real
  }

  lemma RoundIsNearest(x: real, other: int)
    ensures Round(x) as real - 0.5 <= x < Round(x) as real + 0.5
    ensures Distance(x, Round(x)) <= Distance(x, other)
  {
    assert (x + 0.5).Floor as real <= x + 0.5 < (x + 0.5).Floor as real + 1.0;
    if other < Round(x) {
      assert other as real <= Round(x) as real - 1.0;
    } else if other > Round(x) {
      assert other as real >= Round(x) as real + 1.0;
    }
  }

  /** The clamped number is the closest allowed one. */
  lemma ClampIsNearest(x: real, min: int, max: int, other: int)
    requires min <= other <= max
    ensures min <= ClampInt(Finite(x), min, max) <= max
    ensures Distance(x, ClampInt(Finite(x), min, max)) <= Distance(x, other)
  {
    RoundIsNearest(x, other);
    if Round(x) < min {
      assert Round(x) as real <= min as real - 1.0 && min as real <= other as real;
    } else if Round(x) > max {
      assert Round(x) as real >= max as real + 1.0 && other as real <= max as real;
    }
  }

  lemma RoundOfInt(n: int)
    ensures Round(n as real) == n
  {
  }

  /** Sanitizing is idempotent, whatever the bounds are. */
  lemma SanitizeLayoutIsIdempotent(l: Layout, minSize: Size, maxSize: Option<Size>)
    ensures var once := SanitizeWidgetLayout(l, minSize, maxSize);
            SanitizeWidgetLayout(once, minSize, maxSize) == once
  {
    var once := SanitizeWidgetLayout(l, minSize, maxSize);
    RoundOfInt(once.x.value.Floor);
    RoundOfInt(once.y.value.Floor);
    RoundOfInt(once.w.value.Floor);
    RoundOfInt(once.h.value.Floor);
  }

  lemma SanitizeIsIdempotent(reg: Registry, w: Widget)
    ensures SanitizeWidget(reg, SanitizeWidget(reg, w)) == SanitizeWidget(reg, w)
  {
    var def := DefinitionOf(reg, w);
    if def.fixedSize {
      var target := w.layout.(w := Int(def.defaultSize.w), h := Int(def.defaultSize.h));
      RoundOfInt(def.defaultSize.w);
      RoundOfInt(def.defaultSize.h);
      SanitizeLayoutIsIdempotent(target, def.defaultSize, Some(def.defaultSize));
    } else {
      SanitizeLayoutIsIdempotent(w.layout, def.minSize, def.maxSize);
    }
  }

  /** The bounds a definition puts on its widgets, where they do not contradict each other. */
  predicate RespectsSizes(l: Layout, minSize: Size, maxSize: Option<Size>) {
    && l.w.Finite? && l.h.Finite?
    && minSize.w as real <= l.w.value <= (if maxSize.Some? then Min(maxSize.value.w, COLS) else COLS) as real
    && minSize.h as real <= l.h.value <= (if maxSize.Some? then maxSize.value.h else MAX_SAFE_INTEGER) as real
  }

  /** Sanitizing fits a widget to its definition: a fixed one exactly, any other between the bounds. */
  lemma SanitizedRespectsSizes(reg: Registry, w: Widget)
    ensures var def, l := DefinitionOf(reg, w), SanitizeWidget(reg, w).layout;
            if def.fixedSize then l.w == Int(Min(def.defaultSize.w, COLS)) && l.h == Int(def.defaultSize.h)
            else
              (exists l' :: RespectsSizes(l', def.minSize, def.maxSize)) ==> RespectsSizes(l, def.minSize, def.maxSize)
  {
    var def := DefinitionOf(reg, w);
    RoundOfInt(def.defaultSize.w);
    RoundOfInt(def.defaultSize.h);
    if !def.fixedSize {
      forall l' | RespectsSizes(l', def.minSize, def.maxSize)
        ensures RespectsSizes(SanitizeWidget(reg, w).layout, def.minSize, def.maxSize)
      {
      }
    }
  }

  /** A layout that already meets its bounds and the grid is left as it is. */
  lemma SanitizeKeepsGoodLayouts(l: Layout, minSize: Size, maxSize: Option<Size>)
    requires LayoutMeetsSchema(l) && RespectsSizes(l, minSize, maxSize) && FitsGrid(l)
    ensures SanitizeWidgetLayout(l, minSize, maxSize) == l
  {
    RoundOfInt(l.x.value.Floor);
    RoundOfInt(l.y.value.Floor);
    RoundOfInt(l.w.value.Floor);
    RoundOfInt(l.h.value.Floor);
  }

  predicate FitsGrid(l: Layout) {
    l.x.Finite? && l.w.Finite? && 0.0 <= l.x.value && l.x.value + l.w.value <= COLS as real
  }

  /** A widget without a definition may have any size that fits the grid. */
  lemma UnregisteredKeepsItsLayout(reg: Registry, w: Widget)
    requires (w.componentType, w.definitionId) !in reg && LayoutMeetsSchema(w.layout) && FitsGrid(w.layout)
    ensures SanitizeWidget(reg, w) == w
  {
    SanitizeKeepsGoodLayouts(w.layout, Size(1, 1), None);
  }

  lemma SanitizedFitsGrid(reg: Registry, w: Widget)
    ensures FitsGrid(SanitizeWidget(reg, w).layout)
  {
  }

  predicate PositiveSizes(reg: Registry) {
    forall key :: key in reg ==>
      && reg[key].minSize.w >= 1 && reg[key].minSize.h >= 1
      && reg[key].defaultSize.w >= 1 && 1 <= reg[key].defaultSize.h <= MAX_SAFE_INTEGER
      && (reg[key].maxSize.Some? ==> reg[key].maxSize.value.w >= 1 && 1 <= reg[key].maxSize.value.h <= MAX_SAFE_INTEGER)
  }

  /** Only a vertical position too large for the schema survives sanitizing. */
  lemma SanitizedMeetsSchemaIff(reg: Registry, w: Widget)
    requires PositiveSizes(reg)
    ensures LayoutMeetsSchema(SanitizeWidget(reg, w).layout)
            <==> w.layout.y.NotFinite? || Round(w.layout.y.value) <= MAX_SAFE_INTEGER
  {
  }

  // ---- Visibility -------------------------------------------------------

  /** The editor's choice decides, unless it clears the rule of a widget that still has the legacy option. */
  lemma ClearingWorksIff(w: Widget, state: Connection)
    ensures IsVisible(SetVehicleConnectionVisibility(w, None), state)
            <==> LegacyConnection(w).None? || LegacyConnection(w).value == state
  {
    NoOtherRules(VisibilityRules(w));
  }

  lemma SettingDecides(w: Widget, value: Connection, state: Connection)
    ensures IsVisible(SetVehicleConnectionVisibility(w, Some(value)), state) <==> value == state
  {
    NoOtherRules(VisibilityRules(w));
    assert VisibilityRules(SetVehicleConnectionVisibility(w, Some(value))) == [Rule(VehicleConnection, value)];
    assert Rule(VehicleConnection, value) in [Rule(VehicleConnection, value)];
  }

  lemma NoOtherRules(rules: seq<Rule>)
    ensures Filter(rules, (rule: Rule) => rule.kind != VehicleConnection) == []
  {
    var kept := Filter(rules, (rule: Rule) => rule.kind != VehicleConnection);
    FirstIsElement(kept);
  }

  lemma MigrationKeepsVisibility(w: Widget, state: Connection)
    ensures IsVisible(MigrateLegacyVisibility(w), state) <==> IsVisible(w, state)
    ensures LegacyConnection(MigrateLegacyVisibility(w)).None?
    ensures MigrateLegacyVisibility(w).id == w.id
  {
    NoOtherRules(VisibilityRules(w));
  }

  lemma TripStatKeepsVisibility(w: Widget, state: Connection)
    ensures IsVisible(NormalizeTripStat(w), state) <==> IsVisible(w, state)
    ensures NormalizeTripStat(w).id == w.id && NormalizeTripStat(w).layout == w.layout
  {
    assert LegacyConnection(NormalizeTripStat(w)) == LegacyConnection(w);
  }

  /** The sensor a statistic becomes is named by its metric option; unrelated options stay. */
  lemma TripStatBecomesSensor(w: Widget)
    requires IsTripStat(w) && TripSensorOf(OptionsOf(w)).Some? && !NamesInheritedMember(w)
    ensures var s, before := NormalizeTripStat(w), OptionsOf(w);
            && s.componentType == Sensor && s.definitionId.Name? && s.definitionId.text in TRIP_SENSORS
            && s.options.Some?
            && HasText(s.options.value, "metric") && s.options.value["metric"].text == s.definitionId.text
            && "stat" !in s.options.value
            && (HasText(before, "metric") && before["metric"].text in TRIP_SENSORS ==>
                  s.definitionId.text == before["metric"].text)
            && (forall key :: key !in {"stat", "metric", "valueMode", "tripSelectionAware"} ==>
                  (key in s.options.value <==> key in before)
                  && (key in before ==> s.options.value[key] == before[key]))
  {
  }

  /** Which statistic names convert, told by the names themselves; a metric option that names a sensor goes first. */
  lemma ConvertsIff(w: Widget)
    requires IsTripStat(w)
    ensures var options := OptionsOf(w);
            var metric := if HasText(options, "metric") then options["metric"].text else "";
            var stat := if HasText(options, "stat") then options["stat"].text else "";
            var named := metric in {"trip_miles", "total_trips", "avg_efficiency", "avg_trip_duration"};
            NormalizeTripStat(w) != w <==>
              named || stat in {"miles", "count", "efficiency", "duration"} || NamesInheritedMember(w)
  {
    if TripSensorOf(OptionsOf(w)).Some? {
      assert NormalizeTripStat(w).componentType == Sensor;
    }
  }

  /** Without a metric option that names a sensor, each statistic has its own sensor and way to aggregate. */
  lemma StatisticNamesItsSensor(w: Widget, stat: string)
    requires IsTripStat(w) && HasText(OptionsOf(w), "stat") && OptionsOf(w)["stat"].text == stat
    requires HasText(OptionsOf(w), "metric") ==>
               OptionsOf(w)["metric"].text !in {"trip_miles", "total_trips", "avg_efficiency", "avg_trip_duration"}
    ensures var s := NormalizeTripStat(w);
            && (stat == "miles" ==> s.definitionId == Name("trip_miles"))
            && (stat == "count" ==> s.definitionId == Name("total_trips"))
            && (stat == "efficiency" ==> s.definitionId == Name("avg_efficiency"))
            && (stat == "duration" ==> s.definitionId == Name("avg_trip_duration"))
  {
  }

  /** Distances and counts are summed, durations averaged; what a widget says itself stays for efficiencies. */
  lemma SensorAggregates(w: Widget)
    requires IsTripStat(w) && NormalizeTripStat(w).definitionId.Name? && NormalizeTripStat(w) != w
    ensures var name, options := NormalizeTripStat(w).definitionId.text, OptionsOf(NormalizeTripStat(w));
            && "tripSelectionAware" in options && options["tripSelectionAware"] == Flag(true)
            && (name in {"trip_miles", "total_trips"} ==>
                  "valueMode" in options && options["valueMode"] == Text("sum"))
            && (name == "avg_trip_duration" ==> "valueMode" in options && options["valueMode"] == Text("avg"))
            && (name == "avg_efficiency" ==>
                  && ("valueMode" in options <==> "valueMode" in OptionsOf(w))
                  && ("valueMode" in options ==> options["valueMode"] == OptionsOf(w)["valueMode"]))
  {
  }

  /** Rules decide where there are any, then the legacy option; without either a widget is always shown. */
  lemma VisibleIff(w: Widget, state: Connection)
    ensures IsVisible(w, state) <==>
            if w.visibility.Some? && w.visibility.value != [] then
              forall i :: 0 <= i < |w.visibility.value| ==> w.visibility.value[i].value == state
            else
              !(w.options.Some? && "chargingConnectionVisibility" in w.options.value
                && w.options.value["chargingConnectionVisibility"]
                   == Text(if state == Plugged then "unplugged" else "plugged"))
  {
    if w.visibility.Some? && w.visibility.value != [] {
    } else if LegacyConnection(w).Some? {
      assert Rule(VehicleConnection, LegacyConnection(w).value) in VisibilityRules(w);
    }
  }

  /** A loaded charging breakdown is as high as it asks to be, as far as one to twenty rows allow. */
  lemma BreakdownHeightIsNearest(h: real, other: int)
    requires 1 <= other <= 20
    ensures 1 <= ClampBreakdownHeight(Finite(h)) <= 20
    ensures Distance(h, ClampBreakdownHeight(Finite(h))) <= Distance(h, other)
    ensures ClampBreakdownHeight(NotFinite) == 20
  {
    ClampIsNearest(h, 1, 20, other);
  }

  // ---- Loading a configuration ------------------------------------------

  /** What loading does to one widget. */
  function Normalized(reg: Registry, charging: bool, w: Widget): Widget {
    SanitizeWidget(reg, MigrateLegacyVisibility(NormalizeTripStat(if charging then NormalizeBreakdownHeight(w) else w)))
  }

  /** A legacy trip statistic whose name every object inherits. */
  predicate NamesInheritedMember(w: Widget) {
    var options := OptionsOf(w);
    && IsTripStat(w)
    && !(HasText(options, "metric") && options["metric"].text in TRIP_SENSORS)
    && HasText(options, "stat") && options["stat"].text in INHERITED
  }

  predicate Loads(w: Widget) {
    MeetsSchema(w) && !NamesInheritedMember(w)
  }

  lemma BreakdownHeightKeepsSchema(w: Widget)
    requires MeetsSchema(w)
    ensures MeetsSchema(NormalizeBreakdownHeight(w))
  {
  }

  lemma MigratedMeetsSchemaIff(w: Widget)
    requires MeetsSchema(w)
    ensures MeetsSchema(MigrateLegacyVisibility(NormalizeTripStat(w))) <==> !NamesInheritedMember(w)
  {
  }

  /** The widgets that the second schema check sees. */
  function Migrated(charging: bool, ws: seq<Widget>): seq<Widget> {
    Map(Map(if charging then Map(ws, w => NormalizeBreakdownHeight(w)) else ws, w => NormalizeTripStat(w)),
        w => MigrateLegacyVisibility(w))
  }

  lemma MigratedMeetSchemaIff(charging: bool, ws: seq<Widget>)
    requires forall w :: w in ws ==> MeetsSchema(w)
    ensures (forall w :: w in Migrated(charging, ws) ==> MeetsSchema(w)) <==> forall w :: w in ws ==> Loads(w)
  {
    var migrated := Migrated(charging, ws);
    forall i | 0 <= i < |ws| ensures MeetsSchema(migrated[i]) <==> Loads(ws[i]) {
      BreakdownHeightKeepsSchema(ws[i]);
      MigratedMeetsSchemaIff(if charging then NormalizeBreakdownHeight(ws[i]) else ws[i]);
    }
    AllAtIndices(migrated, w => MeetsSchema(w));
    AllAtIndices(ws, w => Loads(w));
  }

  lemma SanitizingMigrated(reg: Registry, charging: bool, ws: seq<Widget>)
    ensures Map(Migrated(charging, ws), w => SanitizeWidget(reg, w)) == Map(ws, w => Normalized(reg, charging, w))
  {
  }

  /** Loading fails exactly on a widget outside the schema or with an inherited statistic name; else it maps. */
  lemma NormalizeIsWidgetwise(reg: Registry, c: Config)
    ensures NormalizeDashboardConfig(reg, c) ==
            if forall w :: w in c.widgets ==> Loads(w)
            then Ok(c.(widgets := Map(c.widgets, w => Normalized(reg, c.slug == "charging", w))))
            else SchemaError
  {
    hide MeetsSchema, NamesInheritedMember, Normalized, MigrateLegacyVisibility, NormalizeTripStat,
         NormalizeBreakdownHeight, SanitizeWidget;
    if Parse(c).Ok? {
      MigratedMeetSchemaIff(c.slug == "charging", c.widgets);
      SanitizingMigrated(reg, c.slug == "charging", c.widgets);
    }
  }

  lemma AllAtIndices(ws: seq<Widget>, p: Widget -> bool)
    ensures (forall w :: w in ws ==> p(w)) <==> forall i :: 0 <= i < |ws| ==> p(ws[i])
  {
  }

  lemma MigrationSettles(w: Widget)
    requires !NamesInheritedMember(w)
    ensures var m := MigrateLegacyVisibility(NormalizeTripStat(w));
            NormalizeTripStat(m) == m && MigrateLegacyVisibility(m) == m
  {
    var stat := NormalizeTripStat(w);
    MigrationKeepsVisibility(stat, Plugged);
    if IsTripStat(stat) {
      assert stat == w && TripSensorOf(OptionsOf(w)).None?;
    }
  }

  lemma MigrationIgnoresLayout(w: Widget, l: Layout)
    ensures MigrateLegacyVisibility(NormalizeTripStat(w.(layout := l)))
            == MigrateLegacyVisibility(NormalizeTripStat(w)).(layout := l)
  {
    var stat := NormalizeTripStat(w);
    assert NormalizeTripStat(w.(layout := l)) == stat.(layout := l);
    assert LegacyConnection(stat.(layout := l)) == LegacyConnection(stat);
    assert VisibilityRules(stat.(layout := l)) == VisibilityRules(stat);
  }

  lemma BreakdownHeightIsBetween(h: Num)
    ensures 1 <= ClampBreakdownHeight(h) <= 20
  {
  }

  /** Clamping the height of a sanitized widget again has no effect once it is sanitized again. */
  lemma HeightSettles(reg: Registry, w: Widget)
    requires IsNetworkBreakdown(w) ==> w.layout.h.Finite? && w.layout.h == Int(w.layout.h.value.Floor)
    requires IsNetworkBreakdown(w) ==> 1.0 <= w.layout.h.value <= 20.0
    ensures SanitizeWidget(reg, NormalizeBreakdownHeight(SanitizeWidget(reg, w))) == SanitizeWidget(reg, w)
  {
    SanitizeIsIdempotent(reg, w);
    if IsNetworkBreakdown(w) {
      RoundOfInt(w.layout.h.value.Floor);
      HeightSettlesOnBreakdown(reg, w);
    }
  }

  lemma HeightSettlesOnBreakdown(reg: Registry, w: Widget)
    requires w.layout.h.Finite? && w.layout.h == Int(w.layout.h.value.Floor) && 1.0 <= w.layout.h.value <= 20.0
    ensures var once := SanitizeWidget(reg, w);
            SanitizeWidget(reg, once.(layout := once.layout.(h := Int(ClampBreakdownHeight(once.layout.h))))) == once
  {
    var once := SanitizeWidget(reg, w);
    SanitizeIsIdempotent(reg, w);
    RoundOfInt(w.layout.h.value.Floor);
    RoundOfInt(once.layout.h.value.Floor);
    RoundOfInt(ClampBreakdownHeight(once.layout.h));
  }

  lemma NormalizedIsFixpoint(reg: Registry, charging: bool, w: Widget)
    requires Loads(w)
    ensures Normalized(reg, charging, Normalized(reg, charging, w)) == Normalized(reg, charging, w)
  {
    var resized := if charging then NormalizeBreakdownHeight(w) else w;
    var m := MigrateLegacyVisibility(NormalizeTripStat(resized));
    var once := SanitizeWidget(reg, m);
    var again := if charging then NormalizeBreakdownHeight(once) else once;
    MigrationSettles(resized);
    MigrationIgnoresLayout(m, again.layout);
    assert again == m.(layout := again.layout);
    if charging {
      BreakdownHeightIsBetween(w.layout.h);
      HeightSettles(reg, m);
    } else {
      SanitizeIsIdempotent(reg, m);
    }
  }

  lemma NormalizedKeepsVisibility(reg: Registry, charging: bool, w: Widget, state: Connection)
    ensures IsVisible(Normalized(reg, charging, w), state) <==> IsVisible(w, state)
    ensures Normalized(reg, charging, w).id == w.id
  {
    hide NormalizeTripStat, MigrateLegacyVisibility;
    var resized := if charging then NormalizeBreakdownHeight(w) else w;
    TripStatKeepsVisibility(resized, state);
    MigrationKeepsVisibility(NormalizeTripStat(resized), state);
  }

  lemma NormalizedLoads(reg: Registry, charging: bool, w: Widget)
    requires Loads(w) && PositiveSizes(reg)
    ensures Loads(Normalized(reg, charging, w))
  {
    var resized := if charging then NormalizeBreakdownHeight(w) else w;
    var migrated := MigrateLegacyVisibility(NormalizeTripStat(resized));
    SanitizedMeetsSchemaIff(reg, migrated);
    RoundOfInt(migrated.layout.y.value.Floor);
    MigratedMeetsSchemaIff(resized);
  }

  /** Loading what was loaded changes nothing. */
  lemma NormalizeIsIdempotent(reg: Registry, c: Config)
    requires PositiveSizes(reg) && NormalizeDashboardConfig(reg, c).Ok?
    ensures var once := NormalizeDashboardConfig(reg, c);
            NormalizeDashboardConfig(reg, once.value) == once
  {
    hide Normalized, Loads;
    NormalizeIsWidgetwise(reg, c);
    var charging := c.slug == "charging";
    var ws := Map(c.widgets, w => Normalized(reg, charging, w));
    NormalizeIsWidgetwise(reg, c.(widgets := ws));
    forall i | 0 <= i < |ws|
      ensures Loads(ws[i]) && Normalized(reg, charging, ws[i]) == ws[i]
    {
      NormalizedLoads(reg, charging, c.widgets[i]);
      NormalizedIsFixpoint(reg, charging, c.widgets[i]);
    }
    assert Map(ws, w => Normalized(reg, charging, w)) == ws;
  }

  /** Ids of the visible widgets, in order. */
  function VisibleIds(ws: seq<Widget>, state: Connection): seq<string> {
    if ws == [] then []
    else (if IsVisible(ws[0], state) then [ws[0].id] else []) + VisibleIds(ws[1..], state)
  }

  lemma {:induction false} VisibleIdsAreIdsOfVisible(ws: seq<Widget>, state: Connection)
    ensures VisibleIds(ws, state) == Ids(Filter(ws, (w: Widget) => IsVisible(w, state)))
  {
    if ws != [] { VisibleIdsAreIdsOfVisible(ws[1..], state); }
  }

  /** Widening the charging mix row keeps the widgets. */
  lemma ResolvedIds(ws: seq<Widget>, state: Connection)
    ensures Ids(ResolveDashboardViewWidgets(ws, state)) == VisibleIds(ws, state)
  {
    hide IsVisible;
    VisibleIdsAreIdsOfVisible(ws, state);
    var visible := Filter(ws, (w: Widget) => IsVisible(w, state));
    assert Ids(Map(visible, w => Expand(w))) == Ids(visible);
  }

  lemma {:induction false} VisibleIdsOfAlike(a: seq<Widget>, b: seq<Widget>, state: Connection)
    requires |a| == |b|
    requires forall i :: 0 <= i < |a| ==> a[i].id == b[i].id && (IsVisible(a[i], state) <==> IsVisible(b[i], state))
    ensures VisibleIds(a, state) == VisibleIds(b, state)
  {
    if a != [] { VisibleIdsOfAlike(a[1..], b[1..], state); }
  }

  /** Loading never changes which widgets are shown, nor their order, in any connection state. */
  lemma NormalizeKeepsVisibleIds(reg: Registry, c: Config, state: Connection)
    requires NormalizeDashboardConfig(reg, c).Ok?
    ensures Ids(ResolveDashboardViewWidgets(NormalizeDashboardConfig(reg, c).value.widgets, state))
            == Ids(ResolveDashboardViewWidgets(c.widgets, state))
  {
    hide Normalized, ResolveDashboardViewWidgets, IsVisible, VisibleIds;
    NormalizeIsWidgetwise(reg, c);
    var charging := c.slug == "charging";
    var ws := Map(c.widgets, w => Normalized(reg, charging, w));
    forall i | 0 <= i < |ws|
      ensures ws[i].id == c.widgets[i].id && (IsVisible(ws[i], state) <==> IsVisible(c.widgets[i], state))
    {
      NormalizedKeepsVisibility(reg, charging, c.widgets[i], state);
    }
    VisibleIdsOfAlike(ws, c.widgets, state);
    ResolvedIds(ws, state);
    ResolvedIds(c.widgets, state);
  }

  lemma ResolvedFitsGrid(ws: seq<Widget>, state: Connection)
    requires forall w :: w in ws ==> FitsGrid(w.layout)
    ensures forall w :: w in ResolveDashboardViewWidgets(ws, state) ==> FitsGrid(w.layout)
  {
    var visible := Filter(ws, (w: Widget) => IsVisible(w, state));
    var expanded := Map(visible, w => Expand(w));
    forall i | 0 <= i < |expanded| ensures FitsGrid(expanded[i].layout) {
      assert visible[i] in visible;
    }
  }

  /** Every loaded or shown widget ends within the twelve columns. */
  lemma NormalizedConfigFitsGrid(reg: Registry, c: Config, state: Connection)
    requires NormalizeDashboardConfig(reg, c).Ok?
    ensures var ws := NormalizeDashboardConfig(reg, c).value.widgets;
            && (forall w :: w in ws ==> FitsGrid(w.layout))
            && (forall w :: w in ResolveDashboardViewWidgets(ws, state) ==> FitsGrid(w.layout))
  {
    hide ResolveDashboardViewWidgets, FitsGrid;
    NormalizeIsWidgetwise(reg, c);
    var charging := c.slug == "charging";
    var ws := Map(c.widgets, w => Normalized(reg, charging, w));
    forall i | 0 <= i < |ws| ensures FitsGrid(ws[i].layout) {
      NormalizedFitsGrid(reg, charging, c.widgets[i]);
    }
    ResolvedFitsGrid(ws, state);
  }

  lemma NormalizedFitsGrid(reg: Registry, charging: bool, w: Widget)
    ensures FitsGrid(Normalized(reg, charging, w).layout)
  {
    SanitizedFitsGrid(
      reg, MigrateLegacyVisibility(NormalizeTripStat(if charging then NormalizeBreakdownHeight(w) else w)));
  }

  /** After loading, clearing a widget's rule shows it in every state. */
  lemma ClearingWorksAfterLoading(reg: Registry, charging: bool, w: Widget, state: Connection)
    ensures IsVisible(SetVehicleConnectionVisibility(Normalized(reg, charging, w), None), state)
  {
    var stat := NormalizeTripStat(if charging then NormalizeBreakdownHeight(w) else w);
    MigrationKeepsVisibility(stat, state);
    ClearingWorksIff(Normalized(reg, charging, w), state);
  }

  /** Unplugged, the two shares of the charging mix stand side by side and fill the row. */
  lemma MixFillsTheRow(home: Widget, dc: Widget)
    requires (home.componentType, home.definitionId)
             in {(Charging, Name("home_share")), (Sensor, Name("charging_home_share"))}
    requires (dc.componentType, dc.definitionId)
             in {(Charging, Name("dc_share")), (Sensor, Name("charging_dc_share"))}
    ensures var left, right := Expand(home).layout, Expand(dc).layout;
            && left.x == Finite(0.0) && left.w == right.w
            && left.x.value + left.w.value == right.x.value && right.x.value + right.w.value == COLS as real
  {
  }

  // ---- Editing the layout -----------------------------------------------

  lemma CandidateIsStable(reg: Registry, w: Widget, p: Patch)
    ensures Candidate(reg, Candidate(reg, w, p), p) == Candidate(reg, w, p)
  {
  }

  lemma PatchedIsStable(reg: Registry, patches: seq<Patch>, w: Widget)
    ensures !Moves(reg, patches, Patched(reg, patches, w))
  {
    var p := PatchFor(patches, w.id);
    if p.Some? { CandidateIsStable(reg, w, p.value); }
  }

  /** A second, equal patch hands back the very list it was given. */
  lemma ApplyingTwiceChangesNothing(reg: Registry, ws: seq<Widget>, patches: seq<Patch>)
    ensures var (once, _) := ApplyWidgetLayout(reg, ws, patches);
            ApplyWidgetLayout(reg, once, patches) == (once, false)
  {
    hide Moves, Patched;
    var (once, changed) := ApplyWidgetLayout(reg, ws, patches);
    if changed {
      forall i | 0 <= i < |once| ensures !Moves(reg, patches, once[i]) {
        PatchedIsStable(reg, patches, ws[i]);
      }
    }
  }

  /** Patched widgets keep everything but their layout; patched ones fit the grid, others are untouched. */
  lemma ApplyTouchesLayoutsOnly(reg: Registry, ws: seq<Widget>, patches: seq<Patch>, i: nat)
    requires i < |ws|
    ensures var (next, _) := ApplyWidgetLayout(reg, ws, patches);
            && |next| == |ws|
            && next[i] == ws[i].(layout := next[i].layout)
            && (PatchFor(patches, ws[i].id).None? ==> next[i] == ws[i])
            && (PatchFor(patches, ws[i].id).Some? ==>
                  FitsGrid(next[i].layout) && SanitizeWidget(reg, next[i]) == next[i])
  {
    var p := PatchFor(patches, ws[i].id);
    if p.Some? {
      var asked := Layout(p.value.x, p.value.y, p.value.w, p.value.h);
      var target := ws[i].(layout := SanitizeWidgetLayout(asked, Size(1, 1), None));
      SanitizedFitsGrid(reg, target);
      SanitizeIsIdempotent(reg, target);
      assert Candidate(reg, ws[i], p.value) == ws[i].(layout := Candidate(reg, ws[i], p.value).layout);
    }
    assert ws[i] in ws;
  }

  /** A patch that is possible for its widget is carried out number by number. */
  lemma PossiblePatchIsCarriedOut(reg: Registry, ws: seq<Widget>, patches: seq<Patch>, i: nat)
    requires i < |ws| && PatchFor(patches, ws[i].id).Some?
    requires var p, def := PatchFor(patches, ws[i].id).value, DefinitionOf(reg, ws[i]);
             var asked := Layout(p.x, p.y, p.w, p.h);
             && LayoutMeetsSchema(asked) && FitsGrid(asked)
             && !def.fixedSize && RespectsSizes(asked, def.minSize, def.maxSize)
    ensures var p, l := PatchFor(patches, ws[i].id).value, ApplyWidgetLayout(reg, ws, patches).0[i].layout;
            l.x == p.x && l.y == p.y && l.w == p.w && l.h == p.h
  {
    var p, def := PatchFor(patches, ws[i].id).value, DefinitionOf(reg, ws[i]);
    var asked := Layout(p.x, p.y, p.w, p.h);
    SanitizeKeepsGoodLayouts(asked, Size(1, 1), None);
    SanitizeKeepsGoodLayouts(asked, def.minSize, def.maxSize);
    assert ws[i] in ws;
  }

  /** Of several patches with one id the last one counts. */
  lemma {:induction false} LastPatchCounts(patches: seq<Patch>, id: string, k: nat)
    requires k < |patches| && patches[k].i == id
    requires forall j :: k < j < |patches| ==> patches[j].i != id
    ensures PatchFor(patches, id) == Some(patches[k])
  {
    if k < |patches| - 1 { LastPatchCounts(patches[..|patches| - 1], id, k); }
  }
}
