/**
 * src/http_config.rs: the immutable HTTP configuration and its by-value
 * builder. Each builder setter consumes the builder and returns it with one
 * field replaced; `build` copies the three fields into an `HttpConfig`.
 */
module HttpConfigs {
  import opened Wrappers

  /** Rust's `u64`. */
  type U64 = x: int | 0 <= x < 0x1_0000_0000_0000_0000
  /** Rust's `usize`, taken to be 64 bits wide. */
  type Usize = x: int | 0 <= x < 0x1_0000_0000_0000_0000

  const U64Max: U64 := 0xFFFF_FFFF_FFFF_FFFF
  const UsizeMax: Usize := 0xFFFF_FFFF_FFFF_FFFF

  /** `HttpConfig`: timeout in milliseconds, redirect cap, cookie persistence. */
  datatype HttpConfig = HttpConfig(timeout: Option<U64>, maxRedirect: Option<Usize>, cookieStore: bool)

  /** `HttpConfigBuilder`: the same three fields, filled in step by step. */
  datatype HttpConfigBuilder = HttpConfigBuilder(timeout: Option<U64>, maxRedirect: Option<Usize>, cookieStore: bool) {

    /** `timeout(ms)`: sets the timeout and nothing else. */
    function Timeout(ms: U64): (b: HttpConfigBuilder)
      ensures b.timeout == Some(ms)
      ensures b.maxRedirect == maxRedirect && b.cookieStore == cookieStore
    {
      this.(timeout := Some(ms))
    }

    /** `max_redirect(n)`: sets the redirect cap and nothing else. */
    function MaxRedirect(n: Usize): (b: HttpConfigBuilder)
      ensures b.maxRedirect == Some(n)
      ensures b.timeout == timeout && b.cookieStore == cookieStore
    {
      this.(maxRedirect := Some(n))
    }

    /** `cookie_store(flag)`: sets the cookie flag and nothing else. */
    function CookieStore(flag: bool): (b: HttpConfigBuilder)
      ensures b.cookieStore == flag
      ensures b.timeout == timeout && b.maxRedirect == maxRedirect
    {
      this.(cookieStore := flag)
    }

    /** `build()`: copies the three fields verbatim. */
    function Build(): (c: HttpConfig)
      ensures c.timeout == timeout && c.maxRedirect == maxRedirect && c.cookieStore == cookieStore
    {
      HttpConfig(timeout, maxRedirect, cookieStore)
    }
  }

  /** `HttpConfigBuilder::new()`, equal to its derived `default()`: nothing set, cookies off. */
  function NewBuilder(): (b: HttpConfigBuilder)
    ensures b.timeout.None? && b.maxRedirect.None? && !b.cookieStore
  {
    HttpConfigBuilder(None, None, false)
  }

  /** The derived `HttpConfig::default()`: every field at its type's default. */
  function DefaultConfig(): (c: HttpConfig)
    ensures c.timeout.None? && c.maxRedirect.None? && !c.cookieStore
  {
    HttpConfig(None, None, false)
  }

  /** `HttpConfig::builder()` starts from `HttpConfigBuilder::new()`. */
  function Builder(): (b: HttpConfigBuilder)
    ensures b == NewBuilder()
  {
    NewBuilder()
  }

  /** `HttpConfig::default()` is what `HttpConfig::builder().build()` gives. */
  lemma DefaultIsEmptyBuild()
    ensures DefaultConfig() == Builder().Build()
  {
  }

  /** Setting the same field twice keeps only the later value. */
  lemma LaterSetterWins(b: HttpConfigBuilder, t1: U64, t2: U64, r1: Usize, r2: Usize, c1: bool, c2: bool)
    ensures b.Timeout(t1).Timeout(t2) == b.Timeout(t2)
    ensures b.MaxRedirect(r1).MaxRedirect(r2) == b.MaxRedirect(r2)
    ensures b.CookieStore(c1).CookieStore(c2) == b.CookieStore(c2)
  {
  }

  /** Setters for different fields commute, so chaining order does not matter. */
  lemma SettersCommute(b: HttpConfigBuilder, t: U64, r: Usize, c: bool)
    ensures b.Timeout(t).MaxRedirect(r) == b.MaxRedirect(r).Timeout(t)
    ensures b.Timeout(t).CookieStore(c) == b.CookieStore(c).Timeout(t)
    ensures b.MaxRedirect(r).CookieStore(c) == b.CookieStore(c).MaxRedirect(r)
  {
  }

  /**
   * Building after the three setters yields exactly the values given, the
   * extremes 0 and `u64::MAX` / `usize::MAX` included, whatever the order.
   */
  lemma BuildCopiesSetValues(t: U64, r: Usize, c: bool)
    ensures Builder().Timeout(t).MaxRedirect(r).CookieStore(c).Build() == HttpConfig(Some(t), Some(r), c)
    ensures Builder().CookieStore(c).Timeout(t).MaxRedirect(r).Build() == HttpConfig(Some(t), Some(r), c)
  {
  }

  /** The two extremes the source's tests use survive `build` unchanged. */
  lemma EdgeValuesSurvive()
    ensures Builder().Timeout(0).MaxRedirect(0).CookieStore(false).Build() == HttpConfig(Some(0), Some(0), false)
    ensures Builder().Timeout(U64Max).MaxRedirect(UsizeMax).CookieStore(true).Build()
      == HttpConfig(Some(U64Max), Some(UsizeMax), true)
  {
  }
}
