/** Role resolution in the configuration (internal/config/config.go, lines 454-469, 612-622,
  * 649-650 and 839-855). */
module RoleConfig {
  import opened Wrappers
  import opened OperatorRoles

  /** The part of the configuration that decides the effective roles. */
  datatype Config = Config(roles: seq<Role>, inference: bool, provenance: bool, observer: bool)

  datatype LoadError = RoleInvalid

  /** LoadGateway: data by default, embedded always. */
  function LoadGateway(roles: seq<Role>): Result<Config, LoadError> {
    if !Valid(roles) then Err(RoleInvalid)
    else
      var all := Canonical((if roles == [] then [DATA] else roles) + [EMBEDDED]);
      Ok(Config(all, Has(all, INFERENCE), Has(all, PROVENANCE), Has(all, OBSERVER)))
  }

  /** Load: embedded is refused, and a capability is enabled by its flag or its role. */
  function Load(roles: seq<Role>, inference: bool, provenance: bool, observer: bool): Result<Config, LoadError> {
    if !Valid(roles) || Has(roles, EMBEDDED) then Err(RoleInvalid)
    else
      Ok(Config(Canonical(roles), inference || Has(roles, INFERENCE), provenance || Has(roles, PROVENANCE),
                observer || Has(roles, OBSERVER)))
  }

  /** The capabilities switched on beside the roles. */
  function Enabled(cfg: Config): seq<Role> {
    (if cfg.inference then [INFERENCE] else []) + (if cfg.provenance then [PROVENANCE] else []) +
    (if cfg.observer then [OBSERVER] else [])
  }

  function Effective(cfg: Config): seq<Role> {
    var roles := cfg.roles + Enabled(cfg);
    Canonical(if roles == [] then [DATA] else roles)
  }

  /** The appending form. */
  method EffectiveOperatorRoles(cfg: Config) returns (r: seq<Role>)
    ensures r == Effective(cfg)
  {
    var roles := cfg.roles;
    if cfg.inference {
      roles := roles + [INFERENCE];
    }
    if cfg.provenance {
      roles := roles + [PROVENANCE];
    }
    if cfg.observer {
      roles := roles + [OBSERVER];
    }
    assert roles == cfg.roles + Enabled(cfg);
    if |roles| == 0 {
      roles := roles + [DATA];
      assert roles == [DATA];
    }
    r := CanonicalRoles(roles);
  }

  lemma CanonicalHas(r: seq<Role>, x: Role)
    ensures x in Canonical(r) <==> x in KNOWN && x in r
  {
    var order := KNOWN;
    SelectMembers(order, r, x);
  }

  /** A canonical list that has every enabled capability is what it resolves to. */
  lemma CanonicalResolves(e: seq<Role>, cfg: Config)
    requires e != [] && Canonical(e) == e && cfg.roles == e
    requires forall x :: x in Enabled(cfg) ==> x in e
    ensures Effective(cfg) == e
  {
    CanonicalIff(e + Enabled(cfg), e);
  }

  lemma EnabledFrom(cfg: Config, e: seq<Role>)
    requires cfg.inference ==> INFERENCE in e
    requires cfg.provenance ==> PROVENANCE in e
    requires cfg.observer ==> OBSERVER in e
    ensures forall x :: x in Enabled(cfg) ==> x in e
  {
  }

  lemma EffectiveCanonical(cfg: Config)
    requires Valid(cfg.roles)
    ensures var e := Effective(cfg); e != [] && Valid(e) && Canonical(e) == e
  {
    var roles := cfg.roles + Enabled(cfg);
    var all := if roles == [] then [DATA] else roles;
    CanonicalValid(all);
    assert all[0] in KNOWN by { EnabledKnown(cfg, all[0]); assert all[0] in all; }
    CanonicalHas(all, all[0]);
  }

  lemma EnabledKnown(cfg: Config, x: Role)
    ensures x in Enabled(cfg) ==> x in KNOWN
  {
  }

  /** Feeding the effective roles back as the only roles is accepted by Load, and changes nothing,
    * exactly when they do not include embedded. */
  lemma LoadFixedPoint(cfg: Config)
    requires Valid(cfg.roles)
    ensures var again := Load(Effective(cfg), false, false, false);
      again.Ok? && Effective(again.value) == Effective(cfg) <==> EMBEDDED !in Effective(cfg)
  {
    EffectiveCanonical(cfg);
    var e := Effective(cfg);
    if EMBEDDED !in e {
      var again := Load(e, false, false, false).value;
      EnabledFrom(again, e);
      CanonicalResolves(e, again);
    }
  }

  /** LoadGateway accepts them always, and changes nothing exactly when they include embedded. */
  lemma LoadGatewayFixedPoint(cfg: Config)
    requires Valid(cfg.roles)
    ensures var again := LoadGateway(Effective(cfg));
      again.Ok? && (Effective(again.value) == Effective(cfg) <==> EMBEDDED in Effective(cfg))
  {
    EffectiveCanonical(cfg);
    var e := Effective(cfg);
    var again := LoadGateway(e).value;
    CanonicalHas(e + [EMBEDDED], EMBEDDED);
    CanonicalHas(again.roles + Enabled(again), EMBEDDED);
    if EMBEDDED in e {
      CanonicalIff(e + [EMBEDDED], e);
      EnabledFrom(again, e);
      CanonicalResolves(e, again);
    }
  }

  /** So whatever either loader produces is a fixed point of that loader. */
  lemma LoadersAreStable(roles: seq<Role>, i: bool, p: bool, o: bool)
    ensures var cfg := Load(roles, i, p, o);
      cfg.Ok? ==>
        var again := Load(Effective(cfg.value), false, false, false);
        again.Ok? && Effective(again.value) == Effective(cfg.value)
    ensures var cfg := LoadGateway(roles);
      cfg.Ok? ==>
        var again := LoadGateway(Effective(cfg.value));
        again.Ok? && Effective(again.value) == Effective(cfg.value)
  {
    if Load(roles, i, p, o).Ok? {
      var cfg := Load(roles, i, p, o).value;
      CanonicalValid(roles);
      CanonicalHas(roles, EMBEDDED);
      var all := cfg.roles + Enabled(cfg);
      CanonicalHas(if all == [] then [DATA] else all, EMBEDDED);
      LoadFixedPoint(cfg);
    }
    if LoadGateway(roles).Ok? {
      var cfg := LoadGateway(roles).value;
      var given := if roles == [] then [DATA] else roles;
      CanonicalValid(given + [EMBEDDED]);
      CanonicalHas(given + [EMBEDDED], EMBEDDED);
      CanonicalHas(cfg.roles + Enabled(cfg), EMBEDDED);
      LoadGatewayFixedPoint(cfg);
    }
  }

  // ---- what reaches the effective roles ----------------------------------------

  /** A role is effective when it is configured, when its capability is enabled, or, for data, when
    * nothing else is. */
  lemma EffectiveIff(cfg: Config, x: Role)
    requires Valid(cfg.roles)
    ensures x in Effective(cfg) <==>
      || x in cfg.roles
      || (x == "inference" && cfg.inference) || (x == "provenance" && cfg.provenance)
      || (x == "observer" && cfg.observer)
      || (x == "data" && cfg.roles == [] && !cfg.inference && !cfg.provenance && !cfg.observer)
  {
    var all := cfg.roles + Enabled(cfg);
    CanonicalHas(if all == [] then [DATA] else all, x);
    EnabledIff(cfg, x);
    EnabledKnown(cfg, x);
    DataKnown();
  }

  lemma DataKnown()
    ensures DATA in KNOWN && DATA == "data"
  {
    assert KNOWN[1] == DATA;
  }

  lemma EnabledIff(cfg: Config, x: Role)
    ensures x in Enabled(cfg) <==>
      (x == "inference" && cfg.inference) || (x == "provenance" && cfg.provenance) || (x == "observer" && cfg.observer)
    ensures Enabled(cfg) == [] <==> !cfg.inference && !cfg.provenance && !cfg.observer
  {
  }

  /** Load refuses unknown roles and embedded; otherwise the effective roles are those given, those
    * of the flags, and data when there are none. */
  lemma LoadIff(roles: seq<Role>, inference: bool, provenance: bool, observer: bool, x: Role)
    ensures Load(roles, inference, provenance, observer).Ok? <==> Valid(roles) && "embedded" !in roles
    ensures var cfg := Load(roles, inference, provenance, observer);
      cfg.Ok? ==>
        (x in Effective(cfg.value) <==>
         || x in roles
         || (x == "inference" && inference) || (x == "provenance" && provenance) || (x == "observer" && observer)
         || (x == "data" && roles == [] && !inference && !provenance && !observer))
  {
    var r := Load(roles, inference, provenance, observer);
    if r.Ok? {
      CanonicalValid(roles);
      CanonicalHas(roles, x);
      EffectiveIff(r.value, x);
      CanonicalEmpty(roles);
    }
  }

  lemma CanonicalEmpty(roles: seq<Role>)
    requires Valid(roles)
    ensures Canonical(roles) == [] <==> roles == []
  {
    if roles != [] {
      assert roles[0] in roles;
      CanonicalHas(roles, roles[0]);
    } else {
      SelectNone(KNOWN);
    }
  }

  /** LoadGateway refuses unknown roles alone; then the effective roles are those given, or data
    * when none is, and always embedded. */
  lemma LoadGatewayIff(roles: seq<Role>, x: Role)
    ensures LoadGateway(roles).Ok? <==> Valid(roles)
    ensures LoadGateway(roles).Ok? ==>
      (x in Effective(LoadGateway(roles).value) <==>
       x in roles || x == "embedded" || (x == "data" && roles == []))
  {
    if LoadGateway(roles).Ok? {
      var given := if roles == [] then [DATA] else roles;
      var all := given + [EMBEDDED];
      CanonicalValid(all);
      GivenValid(roles);
      CanonicalHas(all, x);
      CanonicalHas(all, EMBEDDED);
      EffectiveIff(LoadGateway(roles).value, x);
    }
  }

  lemma GivenValid(roles: seq<Role>)
    requires Valid(roles)
    ensures Valid((if roles == [] then [DATA] else roles) + [EMBEDDED])
  {
    DataKnown();
    assert KNOWN[0] == EMBEDDED;
  }

  /** A capability is enabled by its role in either mode, and in operator mode by its flag too; the
    * configured roles are those given, with embedded, and with data when none is, in gateway mode. */
  lemma CapabilitiesIff(roles: seq<Role>, inference: bool, provenance: bool, observer: bool, x: Role)
    requires Valid(roles)
    ensures var cfg := Load(roles, inference, provenance, observer);
      cfg.Ok? ==>
        && (cfg.value.inference <==> inference || "inference" in roles)
        && (cfg.value.provenance <==> provenance || "provenance" in roles)
        && (cfg.value.observer <==> observer || "observer" in roles)
        && (x in cfg.value.roles <==> x in roles)
    ensures LoadGateway(roles).Ok? && var cfg := LoadGateway(roles).value;
        && (cfg.inference <==> "inference" in roles)
        && (cfg.provenance <==> "provenance" in roles)
        && (cfg.observer <==> "observer" in roles)
        && (x in cfg.roles <==> x in roles || x == "embedded" || (x == "data" && roles == []))
  {
    CanonicalHas(roles, x);
    var given := if roles == [] then [DATA] else roles;
    var all := given + [EMBEDDED];
    GivenValid(roles);
    CanonicalHas(all, x);
    CanonicalHas(all, "inference");
    CanonicalHas(all, "provenance");
    CanonicalHas(all, "observer");
  }
}
