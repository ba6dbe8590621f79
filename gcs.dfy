/** The image-upload client: JPEG compression with a 1920-pixel bound, an
    OAuth 2.0 access-token cache fed by JWT-bearer assertions (section 2.1 of
    RFC 7523), and the media upload to a Cloud Storage bucket. */
module Gcs {
  import opened Wrappers
  import opened Strings
  import opened Integers

  const MaxWidth: nat := 1920
  const MaxHeight: nat := 1920
  const JpegQuality: real := 0.85
  const JpegMimeType := "image/jpeg"
  const JpegExtension := ".jpg"

  const TokenEndpoint := "https://oauth2.googleapis.com/token"
  const StorageScope := "https://www.googleapis.com/auth/devstorage.read_write"
  const JwtBearerGrant := "urn:ietf:params:oauth:grant-type:jwt-bearer"
  const FormContentType := "application/x-www-form-urlencoded"
  /** A cached token is reused only while more than this many seconds remain. */
  const RefreshMargin := 60
  /** Lifetime requested for the signed assertion, in seconds. */
  const AssertionLifetime := 3600

  const KeyPrefix := "restaurants/"
  const StorageHost := "https://storage.googleapis.com/"
  const UploadPath := "upload/storage/v1/b/"
  /** What follows the bucket in the media-upload address, before the object name. */
  const MediaQuery := "/o?uploadType=media&name="

  type Blob = seq<byte>

  /** The ways an upload is rejected, with the texts the client throws. */
  datatype UploadError =
    | ImageLoadFailed
    | ImageCompressFailed
    | SigningFailed(reason: string)
    | TokenRequestFailed(body: string)
    | UploadRejected(body: string)
  {
    function Message(): (m: string)
      ensures SigningFailed? ==> m == reason
      ensures TokenRequestFailed? || UploadRejected? ==> Contains(m, body)
    {
      match this
      case ImageLoadFailed => "이미지 로드 실패"
      case ImageCompressFailed => "이미지 압축 실패"
      case SigningFailed(reason) => reason
      case TokenRequestFailed(body) =>
        ContainsSuffix("토큰 발급 실패: ", body);
        "토큰 발급 실패: " + body
      case UploadRejected(body) =>
        ContainsSuffix("업로드 실패: ", body);
        "업로드 실패: " + body
    }
  }

  // ---------------------------------------------------------------------------
  // Image compression

  datatype Dimensions = Dimensions(width: nat, height: nat)

  /** The outcome of decoding the chosen file: its natural size, or `onerror`. */
  datatype ImageLoad = Loaded(size: Dimensions) | LoadFailed

  /** The re-encoded file handed to the upload. */
  datatype JpegFile = JpegFile(name: string, mimeType: string, bytes: Blob)

  /** A non-negative rational `num / den`. */
  datatype Ratio = Ratio(num: nat, den: nat)

  /** `r` is `Math.round(n / d)`: the nearest integer, halves rounded up. */
  ghost predicate IsRounded(r: int, n: int, d: int) {
    2 * d * r - d <= 2 * n < 2 * d * r + d
  }

  /** `Math.round(n / d)` in exact arithmetic. */
  function RoundDiv(n: nat, d: nat): (r: nat)
    requires d > 0
    ensures IsRounded(r, n, d)
  {
    var q := (2 * n + d) / (2 * d);
    assert 2 * d * q + (2 * n + d) % (2 * d) == 2 * n + d;
    q
  }

  lemma FactorSign(d: int, x: int)
    requires d > 0 && d * x <= d
    ensures x <= 1
  {
  }

  /** A rounded quotient is at most any integer bound of the exact quotient. */
  lemma RoundedAtMost(r: int, n: int, d: int, k: int)
    requires d > 0 && IsRounded(r, n, d) && n <= k * d
    ensures r <= k
  {
    assert 2 * d * r - d <= 2 * k * d;
    assert d * (2 * (r - k)) == 2 * d * r - 2 * k * d;
    FactorSign(d, 2 * (r - k));
  }

  /** A rounded quotient is at least any integer bound below the exact quotient. */
  lemma RoundedAtLeast(r: int, n: int, d: int, k: int)
    requires d > 0 && IsRounded(r, n, d) && k * d <= n
    ensures k <= r
  {
    assert d * (2 * (k - r)) == 2 * k * d - 2 * d * r;
    FactorSign(d, 2 * (k - r));
  }

  predicate Exceeds(size: Dimensions) {
    size.width > MaxWidth || size.height > MaxHeight
  }

  /** The scale factor `Math.min(MAX_WIDTH / width, MAX_HEIGHT / height)`,
      where a quotient by zero is infinite. */
  function ScaleRatio(size: Dimensions): (q: Ratio)
    requires Exceeds(size)
    ensures q.den > 0
    ensures q.num * size.width <= MaxWidth * q.den
    ensures q.num * size.height <= MaxHeight * q.den
    ensures q == Ratio(MaxWidth, size.width) || q == Ratio(MaxHeight, size.height)
  {
    if MaxWidth * size.height <= MaxHeight * size.width then Ratio(MaxWidth, size.width)
    else Ratio(MaxHeight, size.height)
  }

  /** The canvas size `compressImage` draws at. */
  function Resize(size: Dimensions): (r: Dimensions)
    ensures !Exceeds(size) ==> r == size
    ensures r.width <= MaxWidth && r.height <= MaxHeight
    ensures Exceeds(size) ==> r.width == MaxWidth || r.height == MaxHeight
    ensures Exceeds(size) ==>
      var q := ScaleRatio(size);
      IsRounded(r.width, size.width * q.num, q.den) && IsRounded(r.height, size.height * q.num, q.den)
  {
    if Exceeds(size) then
      var q := ScaleRatio(size);
      var r := Dimensions(RoundDiv(size.width * q.num, q.den), RoundDiv(size.height * q.num, q.den));
      if q == Ratio(MaxWidth, size.width) then
        RoundedAtMost(r.width, size.width * q.num, q.den, MaxWidth);
        RoundedAtLeast(r.width, size.width * q.num, q.den, MaxWidth);
        RoundedAtMost(r.height, size.height * q.num, q.den, MaxHeight);
        r
      else
        RoundedAtMost(r.width, size.width * q.num, q.den, MaxWidth);
        RoundedAtMost(r.height, size.height * q.num, q.den, MaxHeight);
        RoundedAtLeast(r.height, size.height * q.num, q.den, MaxHeight);
        r
    else size
  }

  /** An oversized image's longer side becomes exactly 1920. */
  lemma ResizeLongerSide(size: Dimensions)
    requires Exceeds(size)
    ensures size.width >= size.height ==> Resize(size).width == MaxWidth
    ensures size.height >= size.width ==> Resize(size).height == MaxHeight
  {
    var r, q := Resize(size), ScaleRatio(size);
    var w, h := size.width, size.height;
    if w >= h {
      assert q == Ratio(MaxWidth, w);
      RoundedAtMost(r.width, w * MaxWidth, w, MaxWidth);
      RoundedAtLeast(r.width, w * MaxWidth, w, MaxWidth);
    }
    if h >= w {
      if h == w {
        assert q == Ratio(MaxWidth, w);
        RoundedAtMost(r.height, h * MaxWidth, w, MaxHeight);
        RoundedAtLeast(r.height, h * MaxWidth, w, MaxHeight);
      } else {
        assert q == Ratio(MaxHeight, h);
        RoundedAtMost(r.height, h * MaxHeight, h, MaxHeight);
        RoundedAtLeast(r.height, h * MaxHeight, h, MaxHeight);
      }
    }
  }

  /** Resizing keeps the aspect ratio up to rounding: the cross products of
      the old and new sides differ by at most half the longer old side. */
  lemma ResizeKeepsAspect(size: Dimensions)
    requires Exceeds(size)
    ensures var r := Resize(size);
      2 * Abs(r.width * size.height - r.height * size.width) <= Max(size.width, size.height)
  {
    var r := Resize(size);
    var q := ScaleRatio(size);
    var w, h := size.width, size.height;
    if q == Ratio(MaxWidth, w) {
      RoundedAtMost(r.width, w * MaxWidth, w, MaxWidth);
      RoundedAtLeast(r.width, w * MaxWidth, w, MaxWidth);
      var x := r.height * w;
      assert 2 * w * r.height == 2 * x;
      assert -w <= 2 * (MaxWidth * h - x) < w;
      assert r.width * h == MaxWidth * h;
    } else {
      RoundedAtMost(r.height, h * MaxHeight, h, MaxHeight);
      RoundedAtLeast(r.height, h * MaxHeight, h, MaxHeight);
      var x := r.width * h;
      assert 2 * h * r.width == 2 * x;
      assert -h <= 2 * (MaxHeight * w - x) < h;
      assert r.height * w == MaxHeight * w;
    }
  }

  /** A 3840x2160 image is drawn at 1920x1080. */
  lemma ResizeFourK()
    ensures Resize(Dimensions(3840, 2160)) == Dimensions(1920, 1080)
  {
  }

  /** A very thin image can lose a side entirely: 4000x1 is drawn at 1920x0. */
  lemma ResizeThinImage()
    ensures Resize(Dimensions(4000, 1)) == Dimensions(1920, 0)
  {
  }

  /** The index of the last `.` in `s`, or -1 when there is none. */
  function LastDot(s: string): (i: int)
    ensures -1 <= i < |s|
    ensures i >= 0 ==> s[i] == '.'
    ensures forall j :: i < j < |s| ==> s[j] != '.'
  {
    if s == [] then -1
    else if s[|s| - 1] == '.' then |s| - 1
    else LastDot(s[..|s| - 1])
  }

  /** What `[^/.]+` matches: a non-empty run without `/` or `.`. */
  predicate IsExtension(e: string) {
    |e| > 0 && forall i :: 0 <= i < |e| ==> e[i] != '.' && e[i] != '/'
  }

  /** A dot with an extension after it is the last dot of the name. */
  lemma ExtensionFollowsLastDot(name: string, k: int)
    requires 0 <= k < |name| && name[k] == '.' && IsExtension(name[k + 1..])
    ensures LastDot(name) == k
  {
    forall j | k < j < |name|
      ensures name[j] != '.'
    {
      assert name[k + 1..][j - k - 1] == name[j];
    }
  }

  /** `name.replace(/\.[^/.]+$/, '')`: removes a final `.ext` and nothing else. */
  function StripExtension(name: string): (base: string)
    ensures forall k :: 0 <= k < |name| && name[k] == '.' && IsExtension(name[k + 1..]) ==> base == name[..k]
    ensures (forall k :: 0 <= k < |name| && name[k] == '.' ==> !IsExtension(name[k + 1..])) ==> base == name
  {
    var i := LastDot(name);
    assert forall k :: 0 <= k < |name| && name[k] == '.' && IsExtension(name[k + 1..]) ==> k == i by {
      forall k | 0 <= k < |name| && name[k] == '.' && IsExtension(name[k + 1..]) {
        ExtensionFollowsLastDot(name, k);
      }
    }
    if i >= 0 && IsExtension(name[i + 1..]) then name[..i] else name
  }

  /** The name given to the compressed file. */
  function JpegName(name: string): (r: string)
    ensures |r| >= |JpegExtension| && r[|r| - |JpegExtension|..] == JpegExtension
    ensures r[..|r| - |JpegExtension|] == StripExtension(name)
  {
    StripExtension(name) + JpegExtension
  }

  /** Only the last extension goes: `a.tar.gz` becomes `a.tar.jpg`. */
  lemma JpegNameDoubleExtension()
    ensures JpegName("a.tar.gz") == "a.tar.jpg"
  {
    var name := "a.tar.gz";
    assert name[5] == '.' && name[6..] == "gz";
    assert IsExtension(name[6..]);
    assert name[..5] == "a.tar";
  }

  /** A name without a dot keeps all of itself: `photo` becomes `photo.jpg`. */
  lemma JpegNameNoExtension()
    ensures JpegName("photo") == "photo.jpg"
  {
    assert LastDot("photo") == -1;
  }

  /** An empty extension is not one: `file.` becomes `file..jpg`. */
  lemma JpegNameTrailingDot()
    ensures JpegName("file.") == "file..jpg"
  {
    assert LastDot("file.") == 4;
    assert "file."[5..] == "";
  }

  /** `compressImage`: decode, draw at `Resize`d size, encode as JPEG at
      quality 0.85 (the encoder yields `None` where `toBlob` yields null). */
  function Compress(fileName: string, image: ImageLoad, encoder: (Dimensions, real) -> Option<Blob>)
    : (r: Result<JpegFile, UploadError>)
    ensures image.LoadFailed? ==> r == Failure(ImageLoadFailed)
    ensures image.Loaded? ==> (r.Failure? <==> encoder(Resize(image.size), JpegQuality).None?)
    ensures r.Failure? ==> r.error == ImageLoadFailed || r.error == ImageCompressFailed
    ensures image.Loaded? && r.Failure? ==> r.error == ImageCompressFailed
    ensures r.Success? ==>
      && image.Loaded?
      && r.value.mimeType == JpegMimeType
      && r.value.name == JpegName(fileName)
      && encoder(Resize(image.size), JpegQuality) == Some(r.value.bytes)
  {
    match image
    case LoadFailed => Failure(ImageLoadFailed)
    case Loaded(size) =>
      var canvas := Resize(size);
      match encoder(canvas, JpegQuality)
      case None => Failure(ImageCompressFailed)
      case Some(blob) => Success(JpegFile(JpegName(fileName), JpegMimeType, blob))
  }

  // ---------------------------------------------------------------------------
  // The private key from configuration

  /** `key.replace(/\\n/g, '\n')`: each backslash-n pair becomes a newline. */
  function UnescapeNewlines(s: string): (r: string)
    ensures |r| <= |s|
  {
    if |s| >= 2 && s[0] == '\\' && s[1] == 'n' then "\n" + UnescapeNewlines(s[2..])
    else if s == [] then []
    else [s[0]] + UnescapeNewlines(s[1..])
  }

  /** `s` holds a backslash followed by `n`. */
  predicate HasEscapedNewline(s: string) {
    exists i :: 0 <= i < |s| - 1 && s[i] == '\\' && s[i + 1] == 'n'
  }

  /** The inverse direction: each newline written as backslash-n. */
  function EscapeNewlines(s: string): (r: string)
    ensures |r| >= |s|
    ensures s != [] ==> r != [] && (r[0] == 'n' <==> s[0] == 'n')
  {
    if s == [] then []
    else if s[0] == '\n' then "\\n" + EscapeNewlines(s[1..])
    else [s[0]] + EscapeNewlines(s[1..])
  }

  /** A key without escapes is left as it is. */
  lemma {:induction false} UnescapeWithoutEscapes(s: string)
    requires !HasEscapedNewline(s)
    ensures UnescapeNewlines(s) == s
  {
    if s != [] {
      assert !(|s| >= 2 && s[0] == '\\' && s[1] == 'n');
      NoEscapeInTail(s);
      UnescapeWithoutEscapes(s[1..]);
    }
  }

  /** Escaping and then unescaping gives back any text without a literal backslash-n. */
  lemma {:induction false} UnescapeEscape(s: string)
    requires !HasEscapedNewline(s)
    ensures UnescapeNewlines(EscapeNewlines(s)) == s
  {
    if s != [] {
      NoEscapeInTail(s);
      UnescapeEscape(s[1..]);
      var e := EscapeNewlines(s);
      if s[0] == '\n' {
        assert e == "\\n" + EscapeNewlines(s[1..]);
        assert e[2..] == EscapeNewlines(s[1..]);
      } else {
        assert e == [s[0]] + EscapeNewlines(s[1..]);
        assert e[1..] == EscapeNewlines(s[1..]);
        if s[0] == '\\' && |s| >= 2 {
          assert s[1] != 'n';
        }
      }
    }
  }

  /** Unescaping leaves no backslash-n behind, so it is idempotent. */
  lemma {:induction false} UnescapeLeavesNoEscapes(s: string)
    ensures !HasEscapedNewline(UnescapeNewlines(s))
    ensures s != [] && s[0] != 'n' ==> UnescapeNewlines(s) != [] && UnescapeNewlines(s)[0] != 'n'
    decreases |s|
  {
    var r := UnescapeNewlines(s);
    if |s| >= 2 && s[0] == '\\' && s[1] == 'n' {
      UnescapeLeavesNoEscapes(s[2..]);
      NoEscapeAfterHead('\n', UnescapeNewlines(s[2..]));
    } else if s != [] {
      UnescapeLeavesNoEscapes(s[1..]);
      var t := UnescapeNewlines(s[1..]);
      if s[0] == '\\' && |s| >= 2 {
        assert s[1] != 'n';
      }
      NoEscapeAfterHead(s[0], t);
    }
  }

  /** A character that can be part of no escape splits the key: the text on
      either side of it is unescaped on its own and the character is kept. */
  lemma UnescapeAroundChar(a: string, c: char, b: string)
    requires c != '\\' && c != 'n'
    ensures UnescapeNewlines(a + [c] + b) == UnescapeNewlines(a) + [c] + UnescapeNewlines(b)
  {
    assert a + [c] + b == a + ([c] + b);
    UnescapeAppend(a, [c] + b);
    UnescapeCons(c, b);
  }

  /** No escape straddles a boundary that is not followed by `n`. */
  lemma {:induction false} UnescapeAppend(a: string, rest: string)
    requires rest == [] || rest[0] != 'n'
    ensures UnescapeNewlines(a + rest) == UnescapeNewlines(a) + UnescapeNewlines(rest)
    decreases |a|, 1
  {
    if a == [] {
      assert a + rest == rest;
    } else if |a| >= 2 && a[0] == '\\' && a[1] == 'n' {
      UnescapeAppendEscape(a, rest);
    } else {
      assert a == [a[0]] + a[1..];
      UnescapeAppendPlain(a[0], a[1..], rest);
    }
  }

  lemma {:induction false} UnescapeAppendEscape(a: string, rest: string)
    requires rest == [] || rest[0] != 'n'
    requires |a| >= 2 && a[0] == '\\' && a[1] == 'n'
    ensures UnescapeNewlines(a + rest) == UnescapeNewlines(a) + UnescapeNewlines(rest)
    decreases |a|, 0
  {
    UnescapeAppend(a[2..], rest);
    assert (a + rest)[2..] == a[2..] + rest;
  }

  lemma {:induction false} UnescapeAppendPlain(x: char, t: string, rest: string)
    requires rest == [] || rest[0] != 'n'
    requires x == '\\' ==> t == [] || t[0] != 'n'
    ensures UnescapeNewlines([x] + t + rest) == UnescapeNewlines([x] + t) + UnescapeNewlines(rest)
    decreases |t| + 1, 0
  {
    assert t == [] ==> t + rest == rest;
    calc {
      UnescapeNewlines([x] + t + rest);
      { assert [x] + t + rest == [x] + (t + rest); }
      UnescapeNewlines([x] + (t + rest));
      { UnescapeCons(x, t + rest); }
      [x] + UnescapeNewlines(t + rest);
      { UnescapeAppend(t, rest); }
      [x] + (UnescapeNewlines(t) + UnescapeNewlines(rest));
      { UnescapeCons(x, t); }
      UnescapeNewlines([x] + t) + UnescapeNewlines(rest);
    }
  }

  /** A character that does not start an escape is copied as it is. */
  lemma UnescapeCons(x: char, t: string)
    requires x == '\\' ==> t == [] || t[0] != 'n'
    ensures UnescapeNewlines([x] + t) == [x] + UnescapeNewlines(t)
  {
    assert ([x] + t)[1..] == t;
  }

  lemma NoEscapeInTail(s: string)
    requires s != [] && !HasEscapedNewline(s)
    ensures !HasEscapedNewline(s[1..])
  {
    forall i | 0 <= i < |s| - 2
      ensures !(s[1..][i] == '\\' && s[1..][i + 1] == 'n')
    {
      assert s[1..][i] == s[i + 1] && s[1..][i + 1] == s[i + 2];
    }
  }

  lemma NoEscapeAfterHead(c: char, t: string)
    requires !HasEscapedNewline(t)
    requires c == '\\' && t != [] ==> t[0] != 'n'
    ensures !HasEscapedNewline([c] + t)
  {
    var s := [c] + t;
    forall i | 1 <= i < |s| - 1
      ensures !(s[i] == '\\' && s[i + 1] == 'n')
    {
      assert s[i] == t[i - 1] && s[i + 1] == t[i];
    }
  }

  lemma UnescapeIdempotent(s: string)
    ensures UnescapeNewlines(UnescapeNewlines(s)) == UnescapeNewlines(s)
  {
    UnescapeLeavesNoEscapes(s);
    UnescapeWithoutEscapes(UnescapeNewlines(s));
  }

  // ---------------------------------------------------------------------------
  // Access tokens

  datatype JoseHeader = JoseHeader(alg: string, typ: string)

  /** The unsigned JWT that is exchanged for an access token. */
  datatype Assertion = Assertion(header: JoseHeader, scope: string, iss: string, sub: string, aud: string, iat: int, exp: int)

  /** Signing a JWT with the private key (`importPKCS8` and `SignJWT.sign`):
      the compact JWT, or the reason the key or signature was rejected. */
  type Signer = (string, Assertion) -> Result<string, string>

  datatype TokenRequest = TokenRequest(url: string, contentType: string, grantType: string, assertion: string)

  /** What the token endpoint answers: `response.ok`, `response.text()` and
      the `access_token` and `expires_in` fields of `response.json()`. */
  datatype TokenResponse = TokenResponse(ok: bool, text: string, accessToken: string, expiresIn: int)

  datatype UploadRequest = UploadRequest(url: string, authorization: string, contentType: string, body: Blob)

  /** What the storage endpoint answers: `ok`, the body text and the stored `name`. */
  datatype UploadResponse = UploadResponse(ok: bool, text: string, name: string)

  /** Each HTTP request the client sends, in order. */
  datatype HttpRequest = TokenPost(token: TokenRequest) | ObjectPost(upload: UploadRequest)

  /** The assertion built at time `now` (in seconds) for the service account. */
  function AssertionFor(clientEmail: string, now: int): (a: Assertion)
    ensures a.iss == clientEmail && a.sub == clientEmail
    ensures a.aud == TokenEndpoint && a.scope == StorageScope
    ensures a.iat == now && a.exp - a.iat == AssertionLifetime
    ensures a.header == JoseHeader("RS256", "JWT")
  {
    Assertion(JoseHeader("RS256", "JWT"), StorageScope, clientEmail, clientEmail, TokenEndpoint, now, now + AssertionLifetime)
  }

  function ExchangeRequest(jwt: string): TokenRequest {
    TokenRequest(TokenEndpoint, FormContentType, JwtBearerGrant, jwt)
  }

  /** The cache test `cachedToken && tokenExpiry > now + 60`; an empty token is falsy. */
  predicate TokenUsable(cachedToken: Option<string>, tokenExpiry: int, now: int)
    ensures TokenUsable(cachedToken, tokenExpiry, now) <==>
      |cachedToken.GetOr("")| > 0 && tokenExpiry - now > RefreshMargin
  {
    cachedToken.Some? && cachedToken.value != "" && tokenExpiry > now + RefreshMargin
  }

  /** The result of one `getAccessToken` call and the cache it leaves. */
  datatype TokenOutcome = TokenOutcome(result: Result<string, UploadError>, sent: seq<HttpRequest>,
                                       cachedToken: Option<string>, tokenExpiry: int)

  /** One `getAccessToken` call at time `now` against the cache
      (`cachedToken`, `tokenExpiry`). */
  function TokenStep(cachedToken: Option<string>, tokenExpiry: int, clientEmail: string, privateKey: string,
                     now: int, signer: Signer, tokenEndpoint: TokenRequest -> TokenResponse): (o: TokenOutcome)
    // the cached token is returned without an exchange exactly when it is usable
    ensures (o.sent == [] && o.result.Success?) <==> TokenUsable(cachedToken, tokenExpiry, now)
    ensures TokenUsable(cachedToken, tokenExpiry, now) ==>
      o.result == Success(cachedToken.value) && o.cachedToken == cachedToken && o.tokenExpiry == tokenExpiry
    // a failed call leaves the cache as it was
    ensures o.result.Failure? ==> o.cachedToken == cachedToken && o.tokenExpiry == tokenExpiry
    // what is returned is what is cached
    ensures o.result.Success? ==> o.cachedToken == Some(o.result.value)
    // at most one exchange, of an assertion signed for this account and time
    ensures |o.sent| <= 1
    ensures o.sent == [] && o.result.Failure? ==>
      && o.result.error.SigningFailed?
      && signer(privateKey, AssertionFor(clientEmail, now)) == Failure(o.result.error.reason)
    ensures o.sent != [] ==>
      && o.sent[0].TokenPost?
      && o.sent[0].token.url == TokenEndpoint
      && o.sent[0].token.contentType == FormContentType
      && o.sent[0].token.grantType == JwtBearerGrant
      && signer(privateKey, AssertionFor(clientEmail, now)) == Success(o.sent[0].token.assertion)
    // the exchange's answer decides the rest
    ensures o.sent != [] ==>
      var response := tokenEndpoint(o.sent[0].token);
      if response.ok then
        o.result == Success(response.accessToken) && o.tokenExpiry == now + response.expiresIn
      else
        o.result == Failure(TokenRequestFailed(response.text))
  {
    if TokenUsable(cachedToken, tokenExpiry, now) then
      TokenOutcome(Success(cachedToken.value), [], cachedToken, tokenExpiry)
    else
      match signer(privateKey, AssertionFor(clientEmail, now))
      case Failure(reason) => TokenOutcome(Failure(SigningFailed(reason)), [], cachedToken, tokenExpiry)
      case Success(jwt) =>
        var request := ExchangeRequest(jwt);
        var response := tokenEndpoint(request);
        if !response.ok then
          TokenOutcome(Failure(TokenRequestFailed(response.text)), [TokenPost(request)], cachedToken, tokenExpiry)
        else
          TokenOutcome(Success(response.accessToken), [TokenPost(request)],
                       Some(response.accessToken), now + response.expiresIn)
  }

  /** A token cached at `t0` for `ttl` seconds is reused at `t0 + x` exactly
      when `x < ttl - 60`; at 60 seconds left it is already refreshed. */
  lemma ReuseWindow(token: string, t0: int, ttl: int, x: int, clientEmail: string, privateKey: string,
                    signer: Signer, tokenEndpoint: TokenRequest -> TokenResponse)
    requires token != ""
    ensures var o := TokenStep(Some(token), t0 + ttl, clientEmail, privateKey, t0 + x, signer, tokenEndpoint);
      (o.sent == [] && o.result == Success(token)) <==> x < ttl - RefreshMargin
  {
  }

  /** A token just obtained is served from the cache by a later call made
      while more than 60 seconds of it remain. */
  lemma RefreshedTokenIsReused(cachedToken: Option<string>, tokenExpiry: int, clientEmail: string, privateKey: string,
                               now: int, later: int, signer: Signer, tokenEndpoint: TokenRequest -> TokenResponse,
                               signer2: Signer, tokenEndpoint2: TokenRequest -> TokenResponse)
    requires var o := TokenStep(cachedToken, tokenExpiry, clientEmail, privateKey, now, signer, tokenEndpoint);
      o.result.Success? && o.result.value != "" && later + RefreshMargin < o.tokenExpiry
    ensures var o := TokenStep(cachedToken, tokenExpiry, clientEmail, privateKey, now, signer, tokenEndpoint);
      TokenStep(o.cachedToken, o.tokenExpiry, clientEmail, privateKey, later, signer2, tokenEndpoint2)
        == TokenOutcome(o.result, [], o.cachedToken, o.tokenExpiry)
  {
  }

  // ---------------------------------------------------------------------------
  // Object names and URLs

  /** `Math.random().toString(36).substring(2, 8)`, given the base-36 numeral. */
  function RandomSuffix(numeral: string): (r: string)
    ensures |r| <= 6
    ensures |numeral| >= 8 ==> r == numeral[2..8]
  {
    Substring(numeral, 2, 8)
  }

  /** The object name `restaurants/<millis>_<suffix>.jpg`. */
  function ObjectKey(millis: nat, suffix: string): (key: string)
    ensures |key| == |KeyPrefix| + |NatToString(millis)| + 1 + |suffix| + |JpegExtension|
    ensures var n := |KeyPrefix| + |NatToString(millis)|;
      && KeyPrefix <= key
      && key[|KeyPrefix|..n] == NatToString(millis)
      && key[n] == '_'
      && key[n + 1..|key| - |JpegExtension|] == suffix
      && key[|key| - |JpegExtension|..] == JpegExtension
  {
    KeyPrefix + NatToString(millis) + "_" + suffix + JpegExtension
  }

  /** Distinct timestamps or suffixes give distinct object names. */
  lemma ObjectKeyInjective(m1: nat, s1: string, m2: nat, s2: string)
    requires ObjectKey(m1, s1) == ObjectKey(m2, s2)
    ensures m1 == m2 && s1 == s2
  {
    var d1, d2 := NatToString(m1), NatToString(m2);
    var t1, t2 := d1 + ("_" + s1 + JpegExtension), d2 + ("_" + s2 + JpegExtension);
    assert ObjectKey(m1, s1) == KeyPrefix + t1;
    assert ObjectKey(m2, s2) == KeyPrefix + t2;
    assert t1 == (KeyPrefix + t1)[|KeyPrefix|..];
    assert t2 == (KeyPrefix + t2)[|KeyPrefix|..];
    assert t1 == t2;
    assert t1[|d1|] == '_' && t2[|d2|] == '_';
    assert |d1| == |d2| by {
      assert forall i :: 0 <= i < |d1| ==> t1[i] != '_';
      assert forall i :: 0 <= i < |d2| ==> t2[i] != '_';
    }
    assert d1 == t1[..|d1|] && d2 == t2[..|d2|];
    NatToStringInjective(m1, m2);
    assert s1 == t1[|d1| + 1..|t1| - |JpegExtension|];
    assert s2 == t2[|d2| + 1..|t2| - |JpegExtension|];
  }

  /** The media-upload endpoint for `name`, already percent-encoded. */
  function UploadUrl(bucket: string, encodedName: string): (url: string)
    ensures StorageHost + UploadPath + bucket <= url
    ensures |url| == |StorageHost + UploadPath + bucket| + |MediaQuery| + |encodedName|
    ensures url[|StorageHost + UploadPath + bucket|..|url| - |encodedName|] == MediaQuery
    ensures url[|url| - |encodedName|..] == encodedName
  {
    var p := StorageHost + UploadPath + bucket;
    var url := p + MediaQuery + encodedName;
    assert url == p + (MediaQuery + encodedName);
    url
  }

  /** The public address of a stored object. */
  function PublicUrl(bucket: string, objectName: string): (url: string)
    ensures StorageHost + bucket + "/" <= url
    ensures url[|StorageHost + bucket + "/"|..] == objectName
  {
    StorageHost + bucket + "/" + objectName
  }

  /** Distinct objects of a bucket have distinct public addresses. */
  lemma PublicUrlInjective(bucket: string, a: string, b: string)
    requires PublicUrl(bucket, a) == PublicUrl(bucket, b)
    ensures a == b
  {
    var p := StorageHost + bucket + "/";
    assert PublicUrl(bucket, a)[|p|..] == a && PublicUrl(bucket, b)[|p|..] == b;
  }

  /** The media upload of `file` under `key`, authorized by `token`. */
  function ObjectUpload(bucket: string, key: string, token: string, file: JpegFile, uriEncode: string -> string)
    : (r: UploadRequest)
    ensures r.url == UploadUrl(bucket, uriEncode(key))
    ensures r.authorization == "Bearer " + token
    ensures r.contentType == file.mimeType && r.body == file.bytes
  {
    UploadRequest(UploadUrl(bucket, uriEncode(key)), "Bearer " + token, file.mimeType, file.bytes)
  }

  // ---------------------------------------------------------------------------
  // The client

  /** The configured client and its token cache (`cachedToken`, `tokenExpiry`). */
  class GcsClient {
    const bucket: string
    const clientEmail: string
    const privateKey: string
    var cachedToken: Option<string>
    var tokenExpiry: int

    /** The configuration is read once; the key arrives with `\n` escapes. */
    constructor (bucket: string, clientEmail: string, escapedPrivateKey: string)
      ensures this.bucket == bucket && this.clientEmail == clientEmail
      ensures privateKey == UnescapeNewlines(escapedPrivateKey)
      ensures cachedToken == None && tokenExpiry == 0
    {
      this.bucket := bucket;
      this.clientEmail := clientEmail;
      privateKey := UnescapeNewlines(escapedPrivateKey);
      cachedToken := None;
      tokenExpiry := 0;
    }

    /** `getAccessToken` at wall-clock time `clockMillis` (`Date.now()`). */
    method GetAccessToken(clockMillis: int, signer: Signer, tokenEndpoint: TokenRequest -> TokenResponse)
      returns (r: Result<string, UploadError>, sent: seq<HttpRequest>)
      modifies this
      ensures var o := TokenStep(old(cachedToken), old(tokenExpiry), clientEmail, privateKey,
                                 clockMillis / 1000, signer, tokenEndpoint);
        r == o.result && sent == o.sent && cachedToken == o.cachedToken && tokenExpiry == o.tokenExpiry
    {
      var now := clockMillis / 1000;
      if cachedToken.Some? && cachedToken.value != "" && tokenExpiry > now + RefreshMargin {
        return Success(cachedToken.value), [];
      }
      var jwt := signer(privateKey, AssertionFor(clientEmail, now));
      if jwt.Failure? {
        return Failure(SigningFailed(jwt.error)), [];
      }
      var request := ExchangeRequest(jwt.value);
      var response := tokenEndpoint(request);
      sent := [TokenPost(request)];
      if !response.ok {
        r := Failure(TokenRequestFailed(response.text));
        return;
      }
      cachedToken := Some(response.accessToken);
      tokenExpiry := now + response.expiresIn;
      r := Success(cachedToken.value);
    }

    /** `uploadImageToGCS`: compress, obtain a token, post the JPEG under a
        fresh object name and answer its public URL. `uploadMillis` is the
        second `Date.now()`, `numeral` the base-36 text of `Math.random()`. */
    method UploadImage(fileName: string, image: ImageLoad, encoder: (Dimensions, real) -> Option<Blob>,
                       clockMillis: int, signer: Signer, tokenEndpoint: TokenRequest -> TokenResponse,
                       uploadMillis: nat, numeral: string, uriEncode: string -> string,
                       storage: UploadRequest -> UploadResponse)
      returns (r: Result<string, UploadError>, sent: seq<HttpRequest>)
      modifies this
      // a file that cannot be decoded or encoded is rejected before any request
      ensures var c := Compress(fileName, image, encoder);
        c.Failure? ==> r == Failure(c.error) && sent == [] && unchanged(this)
      ensures var c := Compress(fileName, image, encoder);
        var o := TokenStep(old(cachedToken), old(tokenExpiry), clientEmail, privateKey,
                           clockMillis / 1000, signer, tokenEndpoint);
        c.Success? ==>
          && cachedToken == o.cachedToken && tokenExpiry == o.tokenExpiry
          && (o.result.Failure? ==> r == Failure(o.result.error) && sent == o.sent)
          && (o.result.Success? ==>
                var request := ObjectUpload(bucket, ObjectKey(uploadMillis, RandomSuffix(numeral)),
                                            o.result.value, c.value, uriEncode);
                var response := storage(request);
                && sent == o.sent + [ObjectPost(request)]
                && r == if response.ok then Success(PublicUrl(bucket, response.name))
                        else Failure(UploadRejected(response.text)))
    {
      var compressed := Compress(fileName, image, encoder);
      if compressed.Failure? {
        return Failure(compressed.error), [];
      }
      var token;
      token, sent := GetAccessToken(clockMillis, signer, tokenEndpoint);
      if token.Failure? {
        return Failure(token.error), sent;
      }
      var key := ObjectKey(uploadMillis, RandomSuffix(numeral));
      var request := ObjectUpload(bucket, key, token.value, compressed.value, uriEncode);
      var response := storage(request);
      sent := sent + [ObjectPost(request)];
      if !response.ok {
        r := Failure(UploadRejected(response.text));
        return;
      }
      r := Success(PublicUrl(bucket, response.name));
    }
  }
}
