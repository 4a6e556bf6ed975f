/** Where the backend client finds its URL and anonymous key: the Expo
    variable first, then the Next.js one; a variable counts only when it is
    set to a non-empty value, and with neither set the client cannot be
    created. */
module Env {
  import opened Wrappers

  /** The environment of `process`, when a `process` object exists at all. */
  type Process = Option<map<string, string>>

  const ExpoUrl: string := "EXPO_PUBLIC_SUPABASE_URL"
  const NextUrl: string := "NEXT_PUBLIC_SUPABASE_URL"
  const ExpoAnonKey: string := "EXPO_PUBLIC_SUPABASE_ANON_KEY"
  const NextAnonKey: string := "NEXT_PUBLIC_SUPABASE_ANON_KEY"

  const UrlMissing: string := "Supabase URL not found in environment variables"
  const AnonKeyMissing: string := "Supabase Anon Key not found in environment variables"

  /** A variable that is set to a non-empty value (a truthy one). */
  predicate IsSet(process: Process, name: string) {
    process.Some? && name in process.value && process.value[name] != ""
  }

  /** The first set variable of the two, or the error thrown. */
  function FirstSet(process: Process, primary: string, secondary: string, missing: string)
    : (r: Result<string, string>)
    ensures r.Success? <==> IsSet(process, primary) || IsSet(process, secondary)
    ensures IsSet(process, primary) ==> r == Success(process.value[primary])
    ensures !IsSet(process, primary) && IsSet(process, secondary) ==> r == Success(process.value[secondary])
    ensures r.Failure? ==> r.error == missing
  {
    if IsSet(process, primary) then Success(process.value[primary])
    else if IsSet(process, secondary) then Success(process.value[secondary])
    else Failure(missing)
  }

  function GetSupabaseUrl(process: Process): (r: Result<string, string>)
    ensures r.Success? <==> IsSet(process, ExpoUrl) || IsSet(process, NextUrl)
    ensures r.Success? ==> r.value != [] && r.value == process.value[if IsSet(process, ExpoUrl) then ExpoUrl else NextUrl]
    ensures r.Failure? ==> r.error == UrlMissing
  {
    FirstSet(process, ExpoUrl, NextUrl, UrlMissing)
  }

  function GetSupabaseAnonKey(process: Process): (r: Result<string, string>)
    ensures r.Success? <==> IsSet(process, ExpoAnonKey) || IsSet(process, NextAnonKey)
    ensures r.Success? ==> r.value != [] && r.value == process.value[if IsSet(process, ExpoAnonKey) then ExpoAnonKey else NextAnonKey]
    ensures r.Failure? ==> r.error == AnonKeyMissing
  {
    FirstSet(process, ExpoAnonKey, NextAnonKey, AnonKeyMissing)
  }

  /** Without a `process` object neither setting is found. */
  lemma NoProcessNoClient()
    ensures GetSupabaseUrl(None) == Failure(UrlMissing)
    ensures GetSupabaseAnonKey(None) == Failure(AnonKeyMissing)
  {
  }

  /** An empty Expo value does not hide a set Next.js value. */
  lemma EmptyExpoFallsThrough(env: map<string, string>, url: string)
    requires ExpoUrl in env && env[ExpoUrl] == "" && url != ""
    ensures GetSupabaseUrl(Some(env[NextUrl := url])) == Success(url)
  {
    assert ExpoUrl != NextUrl by { assert ExpoUrl[0] != NextUrl[0]; }
  }

  /** Only the four variables matter: changing any other leaves both
      settings as they were. */
  lemma OtherVariablesIrrelevant(env: map<string, string>, name: string, value: string)
    requires name != ExpoUrl && name != NextUrl && name != ExpoAnonKey && name != NextAnonKey
    ensures GetSupabaseUrl(Some(env[name := value])) == GetSupabaseUrl(Some(env))
    ensures GetSupabaseAnonKey(Some(env[name := value])) == GetSupabaseAnonKey(Some(env))
  {
  }
}
