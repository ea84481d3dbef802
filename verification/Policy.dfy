/** The clipboard firewall: per-kind rules, and a rule for secrets that can only tighten them. */
module Policy {
  import opened Classify

  datatype Rule = Allow | Ask | Deny

  datatype Direction = Inbound | Outbound

  datatype Decision = Pass | Defer | Block

  function Severity(r: Rule): nat { match r case Allow => 0 case Ask => 1 case Deny => 2 }

  function Stricter(a: Rule, b: Rule): Rule { if Severity(b) > Severity(a) then b else a }

  datatype FirewallPolicy =
    FirewallPolicy(enabled: bool, text: Rule, url: Rule, code: Rule, image: Rule, sensitive: Rule)

  function RuleFor(p: FirewallPolicy, k: Kind): Rule {
    match k
    case Text => p.text
    case Url => p.url
    case Code => p.code
    case Image => p.image
    case File => p.image
  }

  function Decide(p: FirewallPolicy, k: Kind, sensitive: bool, dir: Direction): Decision {
    if !p.enabled then Pass
    else
      match if sensitive then Stricter(RuleFor(p, k), p.sensitive) else RuleFor(p, k)
      case Allow => Pass
      case Ask => Defer
      case Deny => Block
  }

  /** Nothing the user set speaks against the item: the switch, the rule of its kind, the rule for secrets. */
  predicate Admits(p: FirewallPolicy, k: Kind, sensitive: bool) {
    p.enabled ==>
      && (k.Text? ==> p.text.Allow?) && (k.Url? ==> p.url.Allow?) && (k.Code? ==> p.code.Allow?)
      && (k.Image? || k.File? ==> p.image.Allow?)
      && (sensitive ==> p.sensitive.Allow?)
  }

  /** One of those rules refuses the item outright. */
  predicate Refuses(p: FirewallPolicy, k: Kind, sensitive: bool) {
    && p.enabled
    && (|| (k.Text? && p.text.Deny?) || (k.Url? && p.url.Deny?) || (k.Code? && p.code.Deny?)
        || ((k.Image? || k.File?) && p.image.Deny?)
        || (sensitive && p.sensitive.Deny?))
  }

  /** An item passes iff no rule speaks against it, is blocked iff one refuses it, and waits for the user otherwise; a file
      goes by the rule for images, and the direction makes no difference. */
  lemma DecideExact(p: FirewallPolicy, k: Kind, sensitive: bool, dir: Direction)
    ensures Decide(p, k, sensitive, dir).Pass? <==> Admits(p, k, sensitive)
    ensures Decide(p, k, sensitive, dir).Block? <==> Refuses(p, k, sensitive)
  {
  }

  /** A secret passes an enabled firewall iff both its kind and secrets in general are allowed. */
  lemma SecretPasses(p: FirewallPolicy, k: Kind, dir: Direction)
    ensures Decide(p, k, true, dir).Pass? <==> !p.enabled || (RuleFor(p, k).Allow? && p.sensitive.Allow?)
    ensures Decide(p, k, true, dir).Pass? ==> Decide(p, k, false, dir).Pass?
    ensures Decide(p, k, false, dir).Block? ==> Decide(p, k, true, dir).Block?
  {
  }

  /** The policy with every `Ask` turned into `Deny`. */
  function Normalized(p: FirewallPolicy): FirewallPolicy {
    p.(text := Hardened(p.text), url := Hardened(p.url), code := Hardened(p.code),
       image := Hardened(p.image), sensitive := Hardened(p.sensitive))
  }

  function Hardened(r: Rule): Rule { if r.Ask? then Deny else r }

  method Normalize(p: FirewallPolicy) returns (n: FirewallPolicy)
    ensures n == Normalized(p)
  {
    var rules := [p.text, p.url, p.code, p.image, p.sensitive];
    for i := 0 to 5
      invariant |rules| == 5
      invariant forall k :: 0 <= k < i ==> rules[k] == Hardened([p.text, p.url, p.code, p.image, p.sensitive][k])
      invariant forall k :: i <= k < 5 ==> rules[k] == [p.text, p.url, p.code, p.image, p.sensitive][k]
    {
      if rules[i] == Ask {
        rules := rules[i := Deny];
      }
    }
    n := FirewallPolicy(p.enabled, rules[0], rules[1], rules[2], rules[3], rules[4]);
  }

  /** Normalising asks nothing any more, lets through exactly what passed before, and blocks what was held. */
  lemma NormalizedVerdict(p: FirewallPolicy, k: Kind, sensitive: bool, dir: Direction)
    ensures Decide(Normalized(p), k, sensitive, dir) == if Decide(p, k, sensitive, dir).Pass? then Pass else Block
    ensures Normalized(Normalized(p)) == Normalized(p)
  {
  }
}
