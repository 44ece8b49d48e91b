/**
 * `ServiceGenerator` of the annotation service client: it binds a Retrofit
 * builder to a corrected base endpoint and the JSON converter, and each
 * `create` call gives the shared builder a fresh HTTP client, with an
 * authorization interceptor when an `Authorization` is supplied.
 */
module Annosaurus {
  import opened Wrappers

  /** The credential an `AuthInterceptor` carries; the `Authorization` class is not part of this model. */
  datatype Authorization = Authorization(credential: string)

  /** The interceptors an OkHttp client can carry here. */
  datatype Interceptor = AuthInterceptor(auth: Authorization)

  /** A built `OkHttpClient`, reduced to its interceptor chain. */
  datatype HttpClient = HttpClient(interceptors: seq<Interceptor>)

  /** The value types that get their own Gson type adapter. */
  datatype AdaptedType = DurationType | TimecodeType | ByteArrayType | InstantType

  /** The Gson configuration behind the converter factory. */
  datatype GsonConfig = GsonConfig(prettyPrinting: bool, dateFormat: string, adapters: seq<AdaptedType>)

  /** A built `Retrofit` instance: base URL, converter factories and client. */
  datatype Retrofit = Retrofit(baseUrl: string, converters: seq<GsonConfig>, client: Option<HttpClient>)

  /** The proxy `Retrofit.create(clazz)` returns for the service interface `api`. */
  datatype Service<S> = Service(api: S, retrofit: Retrofit)

  /**
   * Why `new ServiceGenerator(endpoint)` aborts: the `NullPointerException`
   * that `endpoint.endsWith("/")` throws on a null endpoint, or the
   * `IllegalArgumentException` that `baseUrl` throws on a corrected endpoint
   * it cannot parse.
   */
  datatype GeneratorError = NullEndpoint | MalformedBaseUrl(url: string)

  predicate EndsWithSlash(s: string) {
    |s| > 0 && s[|s| - 1] == '/'
  }

  /**
   * The endpoint with one `/` appended when it does not already end in one,
   * so that relative resource paths resolve below it.
   */
  function CorrectEndpoint(endpoint: string): (r: string)
    ensures EndsWithSlash(r)
    ensures EndsWithSlash(endpoint) ==> r == endpoint
    ensures !EndsWithSlash(endpoint) ==> |r| == |endpoint| + 1 && r[..|endpoint|] == endpoint
  {
    if EndsWithSlash(endpoint) then endpoint else endpoint + "/"
  }

  /** Correcting a corrected endpoint changes nothing. */
  lemma CorrectEndpointIdempotent(endpoint: string)
    ensures CorrectEndpoint(CorrectEndpoint(endpoint)) == CorrectEndpoint(endpoint)
  {
  }

  /** `getGson()`: pretty printing, the date format, and one adapter for each of the four value types. */
  function Gson(): (g: GsonConfig)
    ensures g.prettyPrinting && g.dateFormat == "yyyy-MM-dd'T'HH:mm:ss'Z'"
    ensures forall t: AdaptedType :: t in g.adapters
    ensures forall i, j :: 0 <= i < j < |g.adapters| ==> g.adapters[i] != g.adapters[j]
  {
    var adapters := [DurationType, TimecodeType, ByteArrayType, InstantType];
    assert forall t: AdaptedType :: t in adapters by {
      forall t: AdaptedType ensures t in adapters {
        if t.DurationType? {
          assert adapters[0] == t;
        } else if t.TimecodeType? {
          assert adapters[1] == t;
        } else if t.ByteArrayType? {
          assert adapters[2] == t;
        } else {
          assert adapters[3] == t;
        }
      }
    }
    GsonConfig(true, "yyyy-MM-dd'T'HH:mm:ss'Z'", adapters)
  }

  predicate HasAuthInterceptor(c: HttpClient) {
    exists i :: 0 <= i < |c.interceptors| && c.interceptors[i].AuthInterceptor?
  }

  /**
   * The client a `create` call builds: it has an authorization interceptor
   * if and only if an `Authorization` is given, and that interceptor carries it.
   */
  function ClientFor(auth: Option<Authorization>): (c: HttpClient)
    ensures HasAuthInterceptor(c) <==> auth.Some?
    ensures |c.interceptors| <= 1
    ensures forall i :: 0 <= i < |c.interceptors| ==> auth.Some? && c.interceptors[i] == AuthInterceptor(auth.value)
  {
    match auth
    case None => HttpClient([])
    case Some(a) =>
      assert HttpClient([AuthInterceptor(a)]).interceptors[0].AuthInterceptor?;
      HttpClient([AuthInterceptor(a)])
  }

  /** `OkHttpClient.Builder`: collects interceptors, then builds a client. */
  class HttpClientBuilder {
    var interceptors: seq<Interceptor>

    constructor ()
      ensures interceptors == []
    {
      interceptors := [];
    }

    method AddInterceptor(i: Interceptor)
      modifies this
      ensures interceptors == old(interceptors) + [i]
    {
      interceptors := interceptors + [i];
    }

    function Build(): (c: HttpClient)
      reads this
      ensures c.interceptors == interceptors
    {
      HttpClient(interceptors)
    }
  }

  /** `Retrofit.Builder`: base URL, converter factories and client, set one call at a time. */
  class RetrofitBuilder {
    var baseUrl: Option<string>
    var converters: seq<GsonConfig>
    var client: Option<HttpClient>

    constructor ()
      ensures baseUrl == None && converters == [] && client == None
    {
      baseUrl, converters, client := None, [], None;
    }

    method BaseUrl(url: string)
      modifies this
      ensures baseUrl == Some(url) && converters == old(converters) && client == old(client)
    {
      baseUrl := Some(url);
    }

    method AddConverterFactory(g: GsonConfig)
      modifies this
      ensures converters == old(converters) + [g] && baseUrl == old(baseUrl) && client == old(client)
    {
      converters := converters + [g];
    }

    /** Sets the client, replacing any client an earlier call set. */
    method Client(c: HttpClient)
      modifies this
      ensures client == Some(c) && baseUrl == old(baseUrl) && converters == old(converters)
    {
      client := Some(c);
    }

    function Build(): (r: Retrofit)
      reads this
      requires baseUrl.Some?
      ensures r.baseUrl == baseUrl.value && r.converters == converters && r.client == client
    {
      Retrofit(baseUrl.value, converters, client)
    }
  }

  class ServiceGenerator {
    const retrofitBuilder: RetrofitBuilder

    /** The builder is bound to a corrected endpoint and to the Gson converter alone. */
    ghost predicate Valid()
      reads this, retrofitBuilder
    {
      && retrofitBuilder.baseUrl.Some?
      && EndsWithSlash(retrofitBuilder.baseUrl.value)
      && retrofitBuilder.converters == [Gson()]
    }

    constructor (endpoint: string)
      ensures Valid() && fresh(retrofitBuilder)
      ensures retrofitBuilder.baseUrl == Some(CorrectEndpoint(endpoint))
      ensures retrofitBuilder.client == None
    {
      var correctedEndpoint := CorrectEndpoint(endpoint);
      var b := new RetrofitBuilder();
      b.BaseUrl(correctedEndpoint);
      b.AddConverterFactory(Gson());
      retrofitBuilder := b;
    }

    /**
     * `create(clazz, auth)`: builds a new client, with an authorization
     * interceptor exactly when `auth` is given, installs it in the shared
     * builder in place of the previous one, and builds the service proxy.
     */
    method Create<S>(clazz: S, auth: Option<Authorization>) returns (service: Service<S>)
      requires Valid()
      modifies retrofitBuilder
      ensures Valid()
      ensures retrofitBuilder.baseUrl == old(retrofitBuilder.baseUrl)
      ensures retrofitBuilder.converters == old(retrofitBuilder.converters)
      ensures retrofitBuilder.client == Some(ClientFor(auth))
      ensures service == Service(clazz, Retrofit(retrofitBuilder.baseUrl.value, [Gson()], Some(ClientFor(auth))))
    {
      var httpClient := new HttpClientBuilder();
      if auth.Some? {
        httpClient.AddInterceptor(AuthInterceptor(auth.value));
      }
      assert httpClient.Build() == ClientFor(auth);
      retrofitBuilder.Client(httpClient.Build());
      service := Service(clazz, retrofitBuilder.Build());
    }

    /** `create(clazz)`: the same as `create(clazz, null)`, so the client has no interceptor. */
    method CreateWithoutAuth<S>(clazz: S) returns (service: Service<S>)
      requires Valid()
      modifies retrofitBuilder
      ensures Valid()
      ensures retrofitBuilder.baseUrl == old(retrofitBuilder.baseUrl)
      ensures retrofitBuilder.client == Some(HttpClient([]))
      ensures service == Service(clazz, Retrofit(retrofitBuilder.baseUrl.value, [Gson()], Some(HttpClient([]))))
    {
      service := Create(clazz, None);
    }
  }

  /**
   * `new ServiceGenerator(endpoint)` for an endpoint reference that may be
   * null: `isValidBaseUrl` stands for Retrofit's URL parser. A null endpoint
   * aborts before the correction, a corrected endpoint the parser rejects
   * aborts in `baseUrl`; any other is bound as the constructor does.
   */
  method NewServiceGenerator(endpoint: Option<string>, isValidBaseUrl: string -> bool)
    returns (r: Result<ServiceGenerator, GeneratorError>)
    ensures r.Failure? <==> endpoint.None? || !isValidBaseUrl(CorrectEndpoint(endpoint.value))
    ensures endpoint.None? ==> r == Failure(NullEndpoint)
    ensures endpoint.Some? && !isValidBaseUrl(CorrectEndpoint(endpoint.value)) ==>
              r == Failure(MalformedBaseUrl(CorrectEndpoint(endpoint.value)))
    ensures r.Success? ==> && r.value.Valid() && fresh(r.value.retrofitBuilder)
                           && r.value.retrofitBuilder.baseUrl == Some(CorrectEndpoint(endpoint.value))
                           && r.value.retrofitBuilder.client == None
  {
    match endpoint
    case None =>
      r := Failure(NullEndpoint);
    case Some(e) =>
      var correctedEndpoint := CorrectEndpoint(e);
      if !isValidBaseUrl(correctedEndpoint) {
        r := Failure(MalformedBaseUrl(correctedEndpoint));
      } else {
        var generator := new ServiceGenerator(e);
        r := Success(generator);
      }
  }

  /**
   * Two services made one after the other by the same generator: the second,
   * made without an `Authorization`, does not inherit the first one's
   * interceptor, and both are bound to the corrected endpoint.
   */
  method CreateAfterAuthenticatedCreate<S>(endpoint: string, first: S, second: S, auth: Authorization)
    returns (a: Service<S>, b: Service<S>)
    ensures a.api == first && b.api == second
    ensures a.retrofit.client == Some(HttpClient([AuthInterceptor(auth)]))
    ensures b.retrofit.client == Some(HttpClient([]))
    ensures a.retrofit.baseUrl == b.retrofit.baseUrl == CorrectEndpoint(endpoint)
  {
    var generator := new ServiceGenerator(endpoint);
    a := generator.Create(first, Some(auth));
    b := generator.CreateWithoutAuth(second);
  }
}
