/** The permission gate in front of the camera: which runtime permissions
    the app needs on a given API level, and what the take-photo button, the
    permission result and the denial dialogs do with the answers. */
module Gate {

  /** `Build.VERSION_CODES.P`, the last level that needs storage permission to write Downloads. */
  const P: int := 28

  const CameraPermission: string := "android.permission.CAMERA"
  const WriteStoragePermission: string := "android.permission.WRITE_EXTERNAL_STORAGE"

  function RequiredPermissions(sdk: int): (perms: seq<string>)
    ensures CameraPermission in perms
    ensures WriteStoragePermission in perms <==> sdk <= P
    ensures forall p :: p in perms ==> p == CameraPermission || p == WriteStoragePermission
    ensures forall i, j :: 0 <= i < j < |perms| ==> perms[i] != perms[j]
  {
    if sdk <= P then [CameraPermission, WriteStoragePermission] else [CameraPermission]
  }

  /** Kotlin's `all` over a permission result: every listed permission maps
      to `true`; one missing from the result counts as not granted. */
  function AllGranted(perms: seq<string>, result: map<string, bool>): (b: bool)
    ensures b <==> forall i :: 0 <= i < |perms| ==> perms[i] in result && result[perms[i]]
  {
    if |perms| == 0 then true
    else perms[0] in result && result[perms[0]] && AllGranted(perms[1..], result)
  }

  /** Kotlin's `any`: some listed permission satisfies `wants`. */
  function AnyWants(perms: seq<string>, wants: set<string>): (b: bool)
    ensures b <==> exists i :: 0 <= i < |perms| && perms[i] in wants
  {
    if |perms| == 0 then false
    else perms[0] in wants || AnyWants(perms[1..], wants)
  }

  /** What the gate does next. */
  datatype Action =
    | NavigateToCamera
    | RequestPermissions(perms: seq<string>)
    | ShowRationaleDialog
    | ShowSettingsDialog
    | OpenAppSettings

  /** Whether every required permission is currently granted. */
  function HasRequiredPermissions(sdk: int, granted: set<string>): (b: bool)
    ensures b <==> (forall p :: p in RequiredPermissions(sdk) ==> p in granted)
  {
    AllGranted(RequiredPermissions(sdk), map p | p in RequiredPermissions(sdk) :: p in granted)
  }

  /** Take-photo button: straight to the camera when everything is granted,
      otherwise ask for the required permissions. */
  function OnTakePhotoClicked(sdk: int, granted: set<string>): (a: Action)
    ensures a == NavigateToCamera <==> HasRequiredPermissions(sdk, granted)
    ensures a != NavigateToCamera ==> a == RequestPermissions(RequiredPermissions(sdk))
  {
    if HasRequiredPermissions(sdk, granted) then NavigateToCamera else RequestPermissions(RequiredPermissions(sdk))
  }

  /** After a denial: the rationale dialog if the platform wants a rationale
      shown for some required permission, otherwise the settings dialog. */
  function HandlePermissionDenied(sdk: int, wantsRationale: set<string>): (a: Action)
    ensures a == ShowRationaleDialog || a == ShowSettingsDialog
    ensures a == ShowRationaleDialog <==> exists p :: p in RequiredPermissions(sdk) && p in wantsRationale
  {
    if AnyWants(RequiredPermissions(sdk), wantsRationale) then ShowRationaleDialog else ShowSettingsDialog
  }

  /** The permission-request callback. */
  function OnPermissionResult(sdk: int, result: map<string, bool>, wantsRationale: set<string>): (a: Action)
    ensures a == NavigateToCamera <==> forall p :: p in RequiredPermissions(sdk) ==> p in result && result[p]
    ensures a != NavigateToCamera ==> a == HandlePermissionDenied(sdk, wantsRationale)
  {
    if AllGranted(RequiredPermissions(sdk), result) then NavigateToCamera
    else HandlePermissionDenied(sdk, wantsRationale)
  }

  /** The rationale dialog's retry asks again for the same set; the settings
      dialog's button opens the app's settings page. */
  function OnDialogConfirmed(sdk: int, dialog: Action): (a: Action)
    requires dialog == ShowRationaleDialog || dialog == ShowSettingsDialog
    ensures dialog == ShowRationaleDialog ==> a == RequestPermissions(RequiredPermissions(sdk))
    ensures dialog == ShowSettingsDialog ==> a == OpenAppSettings
  {
    if dialog == ShowRationaleDialog then RequestPermissions(RequiredPermissions(sdk)) else OpenAppSettings
  }

  /** Below API 29 a camera-only grant is not enough; from 29 on it is. */
  lemma CameraAloneSufficesFromQ(sdk: int)
    ensures HasRequiredPermissions(sdk, {CameraPermission}) <==> sdk > P
  {
    if sdk <= P {
      assert WriteStoragePermission in RequiredPermissions(sdk);
    }
  }

  /** Granting extra permissions never turns a navigation into a request:
      the decision only looks at the required ones. */
  lemma ResultDecisionIgnoresUnrequested(sdk: int, result: map<string, bool>, extra: string, v: bool, wants: set<string>)
    requires extra !in RequiredPermissions(sdk)
    ensures OnPermissionResult(sdk, result[extra := v], wants) == OnPermissionResult(sdk, result, wants)
  {
    var required := RequiredPermissions(sdk);
    assert forall p :: p in required ==> (p in result[extra := v] && result[extra := v][p]) == (p in result && result[p]);
  }
}
