/** The account and vehicle pages: the registration form, the new-vehicle
    form, the vehicle editor with its picture merge, the vehicle delete and
    the profile editor with its picture default. Uploaded files are inputs:
    an `Upload` says whether a file was chosen and what saving it returned;
    the files a handler deletes are returned as paths. */
module Fahrten {
  import opened Options
  import opened Tables
  import opened Schema
  import opened Dates
  import opened Database

  /** A file-uploader field at submit time: no file chosen, or a file whose
      save returned `saved` (`None` when writing it failed). */
  datatype Upload = NoUpload | Uploaded(saved: Option<Path>)

  // ---------------------------------------------------------------------------
  // Required fields

  /** `show_register`: `all([...])` over the seven text fields; the date
      widget always holds a date, which is truthy. */
  predicate RegistrationComplete(username: string, password: string, firstName: string, lastName: string,
                                 station: string, email: string, phone: string)
  {
    username != "" && password != "" && firstName != "" && lastName != ""
    && station != "" && email != "" && phone != ""
  }

  /** `show_add_vehicle_form` and `show_edit_vehicle_form`: make and model
      (the date widget always holds a date). */
  predicate VehicleFormComplete(make: string, model: string)
  {
    make != "" && model != ""
  }

  /** `show_edit_profile`: the six personal fields (the date is truthy). */
  predicate ProfileComplete(firstName: string, lastName: string, station: string, phone: string, email: string)
  {
    firstName != "" && lastName != "" && station != "" && phone != "" && email != ""
  }

  // ---------------------------------------------------------------------------
  // Registration

  datatype Registration = FieldsMissing | NameTaken | Registered(userId: nat)

  /** The picture a new account ends up with: the saved upload when its path
      is truthy, otherwise none. */
  function RegisteredPicture(upload: Upload): (p: Option<Path>)
    ensures p.Some? ==> upload == Uploaded(p) && p.value != ""
    ensures upload.Uploaded? && Truthy(upload.saved) ==> p == upload.saved
  {
    if upload.Uploaded? && Truthy(upload.saved) then upload.saved else None
  }

  /** "S'inscrire": check the fields, insert the user with the licence date
      as `YYYY-MM-DD` and no picture, then store the uploaded picture's path
      when saving it gave one. */
  method SubmitRegistration(db: Store, username: string, password: string, passwordHash: string,
                            firstName: string, lastName: string, station: string, email: string,
                            phone: string, licenseDate: Date, upload: Upload)
    returns (outcome: Registration)
    requires db.Valid() && ValidDate(licenseDate)
    modifies db
    ensures db.Valid()
    ensures outcome.FieldsMissing? <==> !RegistrationComplete(username, password, firstName, lastName, station, email, phone)
    ensures outcome.NameTaken? <==>
              RegistrationComplete(username, password, firstName, lastName, station, email, phone)
              && UsernameTaken(old(db.users), username)
    ensures !outcome.Registered? ==> db.UserPart() == old(db.UserPart())
    ensures outcome.Registered? ==>
              && outcome.userId == old(db.lastUserId) + 1 == db.lastUserId
              && db.users == old(db.users) + [Row(outcome.userId,
                               User(username, passwordHash, firstName, lastName, station, email, phone,
                                    Some(FormatDashed(licenseDate)), RegisteredPicture(upload)))]
    ensures db.RidePart() == old(db.RidePart()) && db.RideLedger() == old(db.RideLedger())
    ensures db.VehiclePart() == old(db.VehiclePart())
  {
    if !RegistrationComplete(username, password, firstName, lastName, station, email, phone) {
      return FieldsMissing;
    }
    var user := User(username, passwordHash, firstName, lastName, station, email, phone,
                     Some(FormatDashed(licenseDate)), None);
    var id := db.RegisterUser(user.username, user.passwordHash, user.firstName, user.lastName,
                              user.station, user.email, user.phone, user.licenseDate, None);
    if id.None? {
      return NameTaken;
    }
    if upload.Uploaded? && Truthy(upload.saved) {
      FindAppend(old(db.users), Row(id.value, user), id.value);
      var _, _ := db.UpdateUserProfilePicture(id.value, upload.saved);
      UpdateAppended(old(db.users), id.value, user, user.(picture := upload.saved));
    }
    return Registered(id.value);
  }

  // ---------------------------------------------------------------------------
  // Adding a vehicle

  /** A new vehicle's slot: the saved path when a file was chosen, else NULL. */
  function SavedOrNull(upload: Upload): (p: Option<Path>)
    ensures upload.NoUpload? ==> p.None?
    ensures upload.Uploaded? ==> p == upload.saved
  {
    match upload
    case Uploaded(saved) => saved
    case NoUpload => None
  }

  /** "Ajouter le véhicule": check make and model, build the picture dict
      from the uploads and insert the vehicle with its date as `YYYY-MM-DD`. */
  method SubmitNewVehicle(db: Store, userId: nat, make: string, model: string, firstRegistration: Date,
                          uploads: Slots<Upload>)
    returns (id: Option<nat>)
    requires db.Valid() && ValidDate(firstRegistration)
    modifies db
    ensures db.Valid()
    ensures id.None? <==> !VehicleFormComplete(make, model)
    ensures id.None? ==> db.VehiclePart() == old(db.VehiclePart())
    ensures id.Some? ==>
              && id.value == old(db.lastVehicleId) + 1 == db.lastVehicleId
              && db.vehicles == old(db.vehicles) + [Row(id.value, Vehicle(userId, make, model, FormatDashed(firstRegistration),
                                  Slots(SavedOrNull(uploads.inter1), SavedOrNull(uploads.inter2),
                                        SavedOrNull(uploads.exter1), SavedOrNull(uploads.exter2))))]
    ensures db.UserPart() == old(db.UserPart()) && db.RidePart() == old(db.RidePart())
    ensures db.RideLedger() == old(db.RideLedger())
  {
    if !VehicleFormComplete(make, model) {
      return None;
    }
    var pictures := map["inter1" := SavedOrNull(uploads.inter1), "inter2" := SavedOrNull(uploads.inter2),
                         "exter1" := SavedOrNull(uploads.exter1), "exter2" := SavedOrNull(uploads.exter2)];
    assert PictureColumns(Some(pictures)).At(Inter1) == SavedOrNull(uploads.inter1);
    assert PictureColumns(Some(pictures)).At(Inter2) == SavedOrNull(uploads.inter2);
    assert PictureColumns(Some(pictures)).At(Exter1) == SavedOrNull(uploads.exter1);
    assert PictureColumns(Some(pictures)).At(Exter2) == SavedOrNull(uploads.exter2);
    var newId := db.AddVehicle(userId, make, model, FormatDashed(firstRegistration), Some(pictures));
    return Some(newId);
  }

  // ---------------------------------------------------------------------------
  // Editing a vehicle

  /** One slot of the editor's merge: a chosen file replaces the current path
      by whatever saving it returned, even `None`; no file keeps the path. */
  function SlotChoice(current: Option<Path>, upload: Upload): (p: Option<Path>)
    ensures upload.NoUpload? ==> p == current
    ensures upload.Uploaded? ==> p == upload.saved
  {
    match upload
    case Uploaded(saved) => saved
    case NoUpload => current
  }

  /** The four picture paths the editor stores. */
  function Merged(current: Slots<Option<Path>>, uploads: Slots<Upload>): (m: Slots<Option<Path>>)
    ensures forall s: Slot :: m.At(s) == SlotChoice(current.At(s), uploads.At(s))
  {
    Slots(SlotChoice(current.inter1, uploads.inter1), SlotChoice(current.inter2, uploads.inter2),
          SlotChoice(current.exter1, uploads.exter1), SlotChoice(current.exter2, uploads.exter2))
  }

  /** The editor's `for key, uploaded_file in uploaded_pics.items()` loop:
      a dict with exactly the four slot keys whose columns are `Merged`. */
  method MergePictures(current: Slots<Option<Path>>, uploads: Slots<Upload>) returns (merged: PictureDict)
    ensures merged.Keys == {"inter1", "inter2", "exter1", "exter2"}
    ensures forall s: Slot :: merged[SlotName(s)] == SlotChoice(current.At(s), uploads.At(s))
    ensures PictureColumns(Some(merged)) == Merged(current, uploads)
  {
    merged := map[];
    var i := 0;
    while i < |SlotOrder|
      invariant 0 <= i <= |SlotOrder|
      invariant merged.Keys == set s: Slot | s in SlotOrder[..i] :: SlotName(s)
      invariant forall s: Slot :: s in SlotOrder[..i] ==> merged[SlotName(s)] == SlotChoice(current.At(s), uploads.At(s))
    {
      var slot := SlotOrder[i];
      forall s: Slot | s in SlotOrder[..i]
        ensures SlotName(s) != SlotName(slot)
      {
        SlotNameInjective(s, slot);
      }
      assert SlotOrder[..i + 1] == SlotOrder[..i] + [slot];
      merged := merged[SlotName(slot) := SlotChoice(current.At(slot), uploads.At(slot))];
      i := i + 1;
    }
    assert SlotOrder[..i] == SlotOrder;
    MergedDictIsMerged(current, uploads, merged);
  }

  /** A dict keyed by the names of all four slots, each holding its slot's
      choice, is the merged picture set. */
  lemma MergedDictIsMerged(current: Slots<Option<Path>>, uploads: Slots<Upload>, merged: PictureDict)
    requires merged.Keys == set s: Slot | s in SlotOrder :: SlotName(s)
    requires forall s: Slot :: s in SlotOrder ==> merged[SlotName(s)] == SlotChoice(current.At(s), uploads.At(s))
    ensures merged.Keys == {"inter1", "inter2", "exter1", "exter2"}
    ensures forall s: Slot :: merged[SlotName(s)] == SlotChoice(current.At(s), uploads.At(s))
    ensures PictureColumns(Some(merged)) == Merged(current, uploads)
  {
    forall s: Slot
      ensures s in SlotOrder
    {
      SlotOrderCoversSlots(s);
    }
    assert merged.Keys == {"inter1", "inter2", "exter1", "exter2"} by {
      assert SlotName(Inter1) in merged && SlotName(Inter2) in merged;
      assert SlotName(Exter1) in merged && SlotName(Exter2) in merged;
    }
  }

  /** `UPDATE vehicul SET marque, model, date_mise_en_circulation WHERE id=?
      AND user_id=?`: only the owner's row changes. */
  function OwnerEdit(v: Vehicle, userId: nat, make: string, model: string, firstRegistration: string): (e: Vehicle)
    ensures v.userId != userId ==> e == v
    ensures e.userId == v.userId && e.pictures == v.pictures
  {
    if v.userId == userId then v.(make := make, model := model, firstRegistration := firstRegistration) else v
  }

  /** The owner-guarded details update of the editor. */
  method UpdateVehicleDetails(db: Store, vehicleId: nat, userId: nat, make: string, model: string,
                              firstRegistration: string)
    requires db.Valid()
    modifies db
    ensures db.Valid()
    ensures db.vehicles == match Find(old(db.vehicles), vehicleId)
                           case Some(v) => Update(old(db.vehicles), vehicleId, OwnerEdit(v, userId, make, model, firstRegistration))
                           case None => old(db.vehicles)
    ensures db.lastVehicleId == old(db.lastVehicleId)
    ensures db.UserPart() == old(db.UserPart()) && db.RidePart() == old(db.RidePart())
    ensures db.RideLedger() == old(db.RideLedger())
  {
    var f := (v: Vehicle) => OwnerEdit(v, userId, make, model, firstRegistration);
    match Find(db.vehicles, vehicleId) {
      case Some(v) => ModifyIsUpdate(db.vehicles, vehicleId, f, v);
      case None => ModifyAbsent(db.vehicles, vehicleId, f);
    }
    ModifyWellFormed(db.vehicles, vehicleId, f, db.lastVehicleId);
    db.vehicles := Modify(db.vehicles, vehicleId, f);
  }

  /** The details update changes the named vehicle only, and only when it
      belongs to the user: a non-owner's edit leaves every row as it was. */
  lemma DetailsUpdateIsOwnerGuarded(vehicles: Table<Vehicle>, vehicleId: nat, userId: nat, v: Vehicle,
                                    make: string, model: string, firstRegistration: string, x: nat)
    requires Ascending(vehicles) && Find(vehicles, vehicleId) == Some(v)
    ensures var after := Update(vehicles, vehicleId, OwnerEdit(v, userId, make, model, firstRegistration));
            Find(after, x) ==
              if x == vehicleId && v.userId == userId
              then Some(v.(make := make, model := model, firstRegistration := firstRegistration))
              else Find(vehicles, x)
    ensures v.userId != userId ==> Update(vehicles, vehicleId, OwnerEdit(v, userId, make, model, firstRegistration)) == vehicles
  {
    FindUpdate(vehicles, vehicleId, OwnerEdit(v, userId, make, model, firstRegistration), x);
    if v.userId != userId {
      UpdateSame(vehicles, vehicleId, v);
    }
  }

  /** The vehicle row after the whole edit: the details if the user owns
      it, and the merged pictures whoever owns it. */
  function EditedVehicle(v: Vehicle, userId: nat, make: string, model: string, firstRegistration: string,
                         pictures: Slots<Option<Path>>): (e: Vehicle)
    ensures e.pictures == pictures && e.userId == v.userId
    ensures v.userId == userId ==> e.make == make && e.model == model && e.firstRegistration == firstRegistration
    ensures v.userId != userId ==> e == v.(pictures := pictures)
  {
    OwnerEdit(v, userId, make, model, firstRegistration).(pictures := pictures)
  }

  datatype VehicleEdit = VehicleFieldsMissing | VehicleSaved(picturesUpdated: bool, discarded: seq<Path>)

  /** "Enregistrer les modifications": check make and model, merge the
      shown pictures with the uploads, update the details under the owner
      guard, then `update_vehicul_pictures`, which deletes every old
      picture file of the vehicle and stores the merged paths. */
  method SubmitVehicleEdit(db: Store, userId: nat, vehicleId: nat, shown: Slots<Option<Path>>,
                           make: string, model: string, firstRegistration: Date, uploads: Slots<Upload>)
    returns (outcome: VehicleEdit)
    requires db.Valid() && ValidDate(firstRegistration)
    modifies db
    ensures db.Valid()
    ensures outcome.VehicleFieldsMissing? <==> !VehicleFormComplete(make, model)
    ensures outcome.VehicleFieldsMissing? ==> db.VehiclePart() == old(db.VehiclePart())
    ensures outcome.VehicleSaved? ==>
              && outcome.picturesUpdated == Find(old(db.vehicles), vehicleId).Some?
              && outcome.discarded == (match Find(old(db.vehicles), vehicleId)
                                       case Some(v) => TruthyPaths(Columns(v.pictures))
                                       case None => [])
              && db.vehicles == (match Find(old(db.vehicles), vehicleId)
                                 case Some(v) =>
                                   Update(old(db.vehicles), vehicleId,
                                          EditedVehicle(v, userId, make, model, FormatDashed(firstRegistration),
                                                        Merged(shown, uploads)))
                                 case None => old(db.vehicles))
              && db.lastVehicleId == old(db.lastVehicleId)
    ensures db.UserPart() == old(db.UserPart()) && db.RidePart() == old(db.RidePart())
    ensures db.RideLedger() == old(db.RideLedger())
  {
    if !VehicleFormComplete(make, model) {
      return VehicleFieldsMissing;
    }
    var merged := MergePictures(shown, uploads);
    var registration := FormatDashed(firstRegistration);
    ghost var before := db.vehicles;
    UpdateVehicleDetails(db, vehicleId, userId, make, model, registration);
    match Find(before, vehicleId) {
      case Some(v) =>
        var edited := OwnerEdit(v, userId, make, model, registration);
        FindUpdate(before, vehicleId, edited, vehicleId);
        UpdateTwice(before, vehicleId, edited, edited.(pictures := Merged(shown, uploads)));
      case None =>
    }
    var updated, discarded := db.UpdateVehiclePictures(vehicleId, Some(merged));
    return VehicleSaved(updated, discarded);
  }

  /** A picture the user kept (no file chosen for its slot) is deleted from
      disk by the picture update, and its path is stored again: after the
      edit the vehicle refers to a file that no longer exists. */
  lemma KeptVehiclePictureIsDeleted(v: Vehicle, uploads: Slots<Upload>, s: Slot)
    requires uploads.At(s).NoUpload? && Truthy(v.pictures.At(s))
    ensures v.pictures.At(s).value in TruthyPaths(Columns(v.pictures))
    ensures Merged(v.pictures, uploads).At(s) == v.pictures.At(s)
  {
    SlotOrderCoversSlots(s);
    var i :| 0 <= i < 4 && SlotOrder[i] == s;
    assert Columns(v.pictures)[i] == v.pictures.At(s);
  }

  // ---------------------------------------------------------------------------
  // Deleting a vehicle

  /** "Confirmer la suppression": delete the truthy picture files of the
      shown row, then `DELETE FROM vehicul WHERE id=?`, with no owner check. */
  method DeleteVehicle(db: Store, vehicleId: nat, shown: Slots<Option<Path>>) returns (discarded: seq<Path>)
    requires db.Valid()
    modifies db
    ensures db.Valid()
    ensures discarded == TruthyPaths(Columns(shown))
    ensures db.vehicles == Delete(old(db.vehicles), vehicleId) && db.lastVehicleId == old(db.lastVehicleId)
    ensures Find(db.vehicles, vehicleId).None?
    ensures forall x :: x != vehicleId ==> Find(db.vehicles, x) == Find(old(db.vehicles), x)
    ensures db.UserPart() == old(db.UserPart()) && db.RidePart() == old(db.RidePart())
    ensures db.RideLedger() == old(db.RideLedger())
  {
    discarded := FilesToDelete(Columns(shown));
    forall x
      ensures Find(Delete(db.vehicles, vehicleId), x) == if x == vehicleId then None else Find(db.vehicles, x)
    {
      FindDelete(db.vehicles, vehicleId, x);
    }
    db.vehicles := Delete(db.vehicles, vehicleId);
  }

  // ---------------------------------------------------------------------------
  // Editing the profile

  /** `user[9] if len(user) > 9 and user[9] else None`. */
  function CurrentPicture(stored: Option<Path>): (p: Option<Path>)
    ensures p.Some? <==> Truthy(stored)
    ensures p.Some? ==> p == stored
  {
    if Truthy(stored) then stored else None
  }

  /** The path the profile editor stores: the current one by default,
      replaced only by an upload whose save gave a truthy path. */
  function ProfilePictureToSave(current: Option<Path>, upload: Upload): (p: Option<Path>)
    ensures p != current ==> upload.Uploaded? && p == upload.saved && Truthy(p)
    ensures upload.Uploaded? && Truthy(upload.saved) ==> p == upload.saved
    ensures Truthy(current) ==> Truthy(p)
  {
    match upload
    case Uploaded(saved) => if Truthy(saved) then saved else current
    case NoUpload => current
  }

  datatype ProfileEdit = ProfileFieldsMissing | ProfileSaved(discarded: Option<Path>)

  /** "Enregistrer les modifications du profil": check the fields, update
      them with the licence date as `YYYY-MM-DD`, then store the picture
      path through `update_user_profile_picture`, which deletes the file
      of the path stored before. */
  method SubmitProfileEdit(db: Store, userId: nat, shownPicture: Option<Path>,
                           firstName: string, lastName: string, station: string, phone: string, email: string,
                           licenseDate: Date, upload: Upload)
    returns (outcome: ProfileEdit)
    requires db.Valid() && ValidDate(licenseDate)
    requires ProfileComplete(firstName, lastName, station, phone, email) ==> Find(db.users, userId).Some?
    modifies db
    ensures db.Valid()
    ensures outcome.ProfileFieldsMissing? <==> !ProfileComplete(firstName, lastName, station, phone, email)
    ensures outcome.ProfileFieldsMissing? ==> db.UserPart() == old(db.UserPart())
    ensures outcome.ProfileSaved? ==>
              var u := Find(old(db.users), userId).value;
              && outcome.discarded == CurrentPicture(u.picture)
              && db.users == Update(old(db.users), userId,
                                    u.(firstName := firstName, lastName := lastName, station := station,
                                       email := email, phone := phone, licenseDate := Some(FormatDashed(licenseDate)),
                                       picture := ProfilePictureToSave(CurrentPicture(shownPicture), upload)))
              && db.lastUserId == old(db.lastUserId)
    ensures db.RidePart() == old(db.RidePart()) && db.RideLedger() == old(db.RideLedger())
    ensures db.VehiclePart() == old(db.VehiclePart())
  {
    if !ProfileComplete(firstName, lastName, station, phone, email) {
      return ProfileFieldsMissing;
    }
    var path := ProfilePictureToSave(CurrentPicture(shownPicture), upload);
    var license := Some(FormatDashed(licenseDate));
    ghost var u := Find(db.users, userId).value;
    ghost var edited := u.(firstName := firstName, lastName := lastName, station := station,
                           email := email, phone := phone, licenseDate := license);
    var _ := db.UpdateUserProfile(userId, firstName, lastName, station, email, phone, license);
    FindUpdate(old(db.users), userId, edited, userId);
    UpdateTwice(old(db.users), userId, edited, edited.(picture := path));
    var _, discarded := db.UpdateUserProfilePicture(userId, path);
    return ProfileSaved(discarded);
  }

  /** Saving the profile without a usable new upload deletes the current
      picture file and stores its path again: the profile then refers to a
      file that no longer exists. */
  lemma KeptProfilePictureIsDeleted(stored: Option<Path>, upload: Upload)
    requires Truthy(stored)
    requires !(upload.Uploaded? && Truthy(upload.saved))
    ensures ProfilePictureToSave(CurrentPicture(stored), upload) == stored
    ensures CurrentPicture(stored) == stored
  {
  }
}
