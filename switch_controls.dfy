/**
 * When the Switch component's transition controls are hidden in the
 * property panel. The same set of controls appears three times: for the
 * main transition (no prefix) and, prefixed, for the enter and exit
 * transitions of auto-animate. Every control name and the "instant"
 * option value go through the group's prefixing function `p`.
 */
module SwitchControls {

  /** The component's props as the panel sees them; a missing key reads as undefined. */
  type Props = map<string, string>

  /** `props[key] === value`: false when the key is missing. */
  predicate Is(props: Props, key: string, value: string) {
    key in props && props[key] == value
  }

  /** The transition controls generated for one group. */
  datatype Control =
    | ConfigType      // default or custom
    | TransitionType  // spring or tween
    | Damping | Mass | Stiffness
    | Duration | Ease | CustomEase
  {
    predicate IsSpringParameter() { this == Damping || this == Mass || this == Stiffness }
    predicate IsTweenParameter() { this == Duration || this == Ease || this == CustomEase }
  }

  /** Which copy of the transition controls. */
  datatype Group = Main | Enter | Exit

  /** The options that only make sense for auto-animate hide unless that transition is chosen. */
  predicate AutoAnimateOptionHidden(props: Props) {
    !Is(props, "transition", "autoanimate")
  }

  /** The group-wide hiding condition: never for the main group, else unless auto-animate. */
  predicate ShouldHide(g: Group, props: Props) {
    g != Main && AutoAnimateOptionHidden(props)
  }

  /** The `hidden` predicate of control `c`, for a group with prefixing `p` and hiding condition `shouldHide`. */
  predicate Hidden(c: Control, props: Props, p: string -> string, shouldHide: bool) {
    var instant := Is(props, p("transition"), p("instant"));
    var defaultConfig := Is(props, p("transitionConfigType"), "default");
    match c
    case ConfigType => shouldHide || instant
    case TransitionType => shouldHide || instant || defaultConfig
    case Damping | Mass | Stiffness =>
      shouldHide || instant || !Is(props, p("transitionType"), "spring") || defaultConfig
    case Duration | Ease =>
      shouldHide || instant || !Is(props, p("transitionType"), "tween") || defaultConfig
    case CustomEase =>
      shouldHide || instant || !Is(props, p("transitionType"), "tween") || defaultConfig
      || !Is(props, p("ease"), "custom")
  }

  /** Control `c` of group `g` is shown. */
  predicate Visible(g: Group, c: Control, props: Props, p: string -> string) {
    !Hidden(c, props, p, ShouldHide(g, props))
  }

  /**
   * A spring parameter is shown exactly when the group is active, the
   * transition is not instant, the configuration is custom and the type is
   * spring; a tween parameter likewise with type tween.
   */
  lemma ParameterVisibility(g: Group, c: Control, props: Props, p: string -> string)
    requires c.IsSpringParameter() || c == Duration || c == Ease
    ensures Visible(g, c, props, p) <==>
      && !ShouldHide(g, props)
      && !Is(props, p("transition"), p("instant"))
      && !Is(props, p("transitionConfigType"), "default")
      && Is(props, p("transitionType"), if c.IsSpringParameter() then "spring" else "tween")
  {
  }

  /** Spring and tween parameters of one group are never shown together. */
  lemma SpringTweenExclusive(g: Group, spring: Control, tween: Control, props: Props, p: string -> string)
    requires spring.IsSpringParameter() && tween.IsTweenParameter()
    ensures !(Visible(g, spring, props, p) && Visible(g, tween, props, p))
  {
  }

  /** The spring parameters appear and disappear together, and so do duration and easing. */
  lemma ParametersTogether(g: Group, props: Props, p: string -> string)
    ensures Visible(g, Damping, props, p) <==> Visible(g, Mass, props, p)
    ensures Visible(g, Mass, props, p) <==> Visible(g, Stiffness, props, p)
    ensures Visible(g, Duration, props, p) <==> Visible(g, Ease, props, p)
  {
  }

  /**
   * Visibility nests: the custom curve needs easing, every parameter needs
   * the type selector, and the type selector needs the configuration switch.
   */
  lemma VisibilityNests(g: Group, c: Control, props: Props, p: string -> string)
    ensures Visible(g, CustomEase, props, p) ==> Visible(g, Ease, props, p)
    ensures Visible(g, CustomEase, props, p) ==> Is(props, p("ease"), "custom")
    ensures c != ConfigType && Visible(g, c, props, p) ==> Visible(g, TransitionType, props, p)
    ensures Visible(g, TransitionType, props, p) ==> Visible(g, ConfigType, props, p)
  {
  }

  /**
   * A control of the enter or exit group is shown only when auto-animate is
   * the transition, and then the auto-animate options are shown too.
   */
  lemma NestedGroupsNeedAutoAnimate(g: Group, c: Control, props: Props, p: string -> string)
    requires g != Main && Visible(g, c, props, p)
    ensures Is(props, "transition", "autoanimate")
    ensures !AutoAnimateOptionHidden(props)
  {
  }

  /** The default configuration hides everything but the configuration switch. */
  lemma DefaultConfigHidesParameters(g: Group, c: Control, props: Props, p: string -> string)
    requires Is(props, p("transitionConfigType"), "default")
    ensures Visible(g, c, props, p) ==> c == ConfigType
  {
  }

  /**
   * The instant transition of the main group hides all its transition
   * controls, provided its prefixing leaves the names unchanged.
   */
  lemma InstantHidesMain(c: Control, props: Props, p: string -> string)
    requires p("transition") == "transition" && p("instant") == "instant"
    requires Is(props, "transition", "instant")
    ensures !Visible(Main, c, props, p)
  {
  }
}
