/** src/config.rs: the configuration of the axum server, read from the
    environment. `env` holds the variables that are set; `home` is
    `home_dir()`; `parseBool`, `parseU16` and `parseU32` are the standard
    `FromStr` parsers, None where they fail. */
module Config {
  import opened Basics
  import opened Paths
  import Utils

  datatype Config = Config(output: Path, domain: string, https: bool, port: u16, deleteAfter: u32)

  /** Why `read_config` fails; a parse error carries the rejected value. */
  datatype ConfigError = OutputUnset | TildeFailed | NotABool(v: string) | NotAPort(v: string) | NotANumber(v: string)

  /** `Config::default`. */
  function Default(): (c: Config)
    ensures c.output == Path(false, ["default"])
    ensures c.domain == "localhost" && !c.https && c.port == 8000 && c.deleteAfter == 120
  {
    ParseSingle("default");
    Config(Parse("default"), "localhost", false, 8000, 120)
  }

  /** `Config::read_config`: start from the defaults and override them one
      variable at a time, failing on the first variable that is missing
      (`OUTPUT`) or does not parse, in the order `OUTPUT`, `HTTPS`, `PORT`,
      `DELETE_AFTER`; `DOMAIN_NAME` is taken verbatim, and a final domain
      `localhost` gets the final port appended. */
  method ReadConfig(env: map<string, string>, home: Option<Path>, parseBool: string -> Option<bool>,
                    parseU16: string -> Option<u16>, parseU32: string -> Option<u32>)
    returns (r: Result<Config, ConfigError>)
    ensures "OUTPUT" !in env ==> r == Failure(OutputUnset)
    ensures "OUTPUT" in env ==>
              (r == Failure(TildeFailed) <==> Utils.ExpandTilde(Parse(env["OUTPUT"]), home).None?)
    ensures r == Failure(OutputUnset) || r == Failure(TildeFailed) || OutputOk(env, home)
    ensures OutputOk(env, home) && BadBool(env, parseBool) ==> r == Failure(NotABool(env["HTTPS"]))
    ensures OutputOk(env, home) && !BadBool(env, parseBool) && BadPort(env, parseU16) ==>
              r == Failure(NotAPort(env["PORT"]))
    ensures OutputOk(env, home) && !BadBool(env, parseBool) && !BadPort(env, parseU16) && BadNumber(env, parseU32) ==>
              r == Failure(NotANumber(env["DELETE_AFTER"]))
    ensures r.Success? <==>
              OutputOk(env, home) && !BadBool(env, parseBool) && !BadPort(env, parseU16) && !BadNumber(env, parseU32)
    ensures r.Success? ==> r.value.output == Utils.ExpandTilde(Parse(env["OUTPUT"]), home).value
    ensures r.Success? ==> r.value.https == (if "HTTPS" in env then parseBool(env["HTTPS"]).value else Default().https)
    ensures r.Success? ==> r.value.port == (if "PORT" in env then parseU16(env["PORT"]).value else Default().port)
    ensures r.Success? ==>
              r.value.deleteAfter ==
              (if "DELETE_AFTER" in env then parseU32(env["DELETE_AFTER"]).value else Default().deleteAfter)
    ensures r.Success? ==>
              var domain := if "DOMAIN_NAME" in env then env["DOMAIN_NAME"] else Default().domain;
              r.value.domain == (if domain == "localhost" then "localhost:" + Decimal(r.value.port as nat) else domain)
  {
    var conf := Default();
    if "OUTPUT" in env {
      var out := Utils.ExpandTilde(Parse(env["OUTPUT"]), home);
      if out.None? {
        return Failure(TildeFailed);
      }
      conf := conf.(output := out.value);
    } else {
      return Failure(OutputUnset);
    }
    if "DOMAIN_NAME" in env {
      conf := conf.(domain := env["DOMAIN_NAME"]);
    }
    if "HTTPS" in env {
      var v := env["HTTPS"];
      var b := parseBool(v);
      if b.None? {
        return Failure(NotABool(v));
      }
      conf := conf.(https := b.value);
    }
    if "PORT" in env {
      var v := env["PORT"];
      var p := parseU16(v);
      if p.None? {
        return Failure(NotAPort(v));
      }
      conf := conf.(port := p.value);
    }
    if "DELETE_AFTER" in env {
      var v := env["DELETE_AFTER"];
      var n := parseU32(v);
      if n.None? {
        return Failure(NotANumber(v));
      }
      conf := conf.(deleteAfter := n.value);
    }
    if conf.domain == "localhost" {
      conf := conf.(domain := "localhost:" + Decimal(conf.port as nat));
    }
    r := Success(conf);
  }

  /** `OUTPUT` is set and its tilde expands. */
  predicate OutputOk(env: map<string, string>, home: Option<Path>)
  {
    "OUTPUT" in env && Utils.ExpandTilde(Parse(env["OUTPUT"]), home).Some?
  }

  predicate BadBool(env: map<string, string>, parseBool: string -> Option<bool>)
  {
    "HTTPS" in env && parseBool(env["HTTPS"]).None?
  }

  predicate BadPort(env: map<string, string>, parseU16: string -> Option<u16>)
  {
    "PORT" in env && parseU16(env["PORT"]).None?
  }

  predicate BadNumber(env: map<string, string>, parseU32: string -> Option<u32>)
  {
    "DELETE_AFTER" in env && parseU32(env["DELETE_AFTER"]).None?
  }

  /** An `OUTPUT` without a leading `~` is used as it is, whatever the home
      directory; a `~/…` one lands under an absolute home directory other
      than `/`, and under the home directory `/` it becomes relative. */
  lemma OutputExpansion(o: string, home: Option<Path>)
    ensures !StartsWith(Parse(o), Tilde) ==> Utils.ExpandTilde(Parse(o), home) == Some(Parse(o))
    ensures StartsWith(Parse(o), Tilde) && home.Some? && home.value.absolute && home.value != Root ==>
              Utils.ExpandTilde(Parse(o), home).Some? && Utils.ExpandTilde(Parse(o), home).value.absolute
    ensures StartsWith(Parse(o), Tilde) && Parse(o) != Tilde && home == Some(Root) ==>
              Utils.ExpandTilde(Parse(o), home).Some? && !Utils.ExpandTilde(Parse(o), home).value.absolute
  {
  }
}
