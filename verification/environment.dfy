/** The process environment as an immutable snapshot, and the per-user
    configuration directory every marker file lives in. */
module Environment {
  import opened Wrappers
  import Text

  type Env = map<string, string>

  /** Rust `env::var(name).ok()`. */
  function Var(env: Env, name: string): Option<string> {
    if name in env then Some(env[name]) else None
  }

  /** Rust `env::var(name).map(|s| s.to_lowercase() == value).unwrap_or(false)`. */
  predicate LowerEquals(env: Env, name: string, value: string) {
    name in env && Text.ToLower(env[name]) == value
  }

  /** `HOME`, or "." when it is unset. */
  function Home(env: Env): string {
    Var(env, "HOME").GetOr(".")
  }

  /** `<home>/.config/translator-app`, the directory of all marker files. */
  function ConfigDir(env: Env): string {
    Home(env) + "/.config/translator-app"
  }
}
